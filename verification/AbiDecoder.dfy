/** backend/internal/chain/abi.go: the return-data decoder, with Go's 64-bit sums and slice bounds. */
module AbiDecoder {
  import opened Outcomes
  import opened Bytes
  import Hex

  /** Return data held in memory. */
  type Slice = s: seq<byte> | |s| <= MAX_ALLOC

  /** `make([]T, 0, n)` for elements of `size` bytes. */
  function Make(n: nat, size: nat): Outcome<()> {
    if n * size > MAX_ALLOC then Panic else Ok(())
  }

  function HexAddress(raw: seq<byte>): string {
    "0x" + Hex.Show(raw)
  }

  datatype Decoder = Decoder(data: Slice) {

    /** `d.data[lo:hi]`. */
    function Cut(lo: int64, hi: int64): Outcome<seq<byte>> {
      if 0 <= lo <= hi <= |data| then Ok(data[lo..hi]) else Panic
    }

    function Word(offset: int64): Outcome<seq<byte>> {
      if offset < 0 || Wrap64(offset + 32) > |data| then Err else Cut(offset, Wrap64(offset + 32))
    }

    function UintAt(offset: int64): Outcome<nat> {
      var w :- Word(offset);
      Ok(FromBE(w))
    }

    function IntAt(offset: int64): (r: Outcome<int64>)
      ensures r.Ok? ==> r.value >= 0
    {
      var n :- UintAt(offset);
      if n > MAX_INT64 then Err else Ok(n)
    }

    function OffsetAt(offset: int64): (r: Outcome<int64>)
      ensures r.Ok? ==> 0 <= r.value <= |data|
    {
      var n :- IntAt(offset);
      if n < 0 || n > |data| then Err else Ok(n)
    }

    function BoolAt(offset: int64): Outcome<bool> {
      var w :- Word(offset);
      if |w| != 32 || w[..31] != Zeros(31) then Err else Ok(w[31] == 1)
    }

    function AddressAt(offset: int64): Outcome<string> {
      var w :- Word(offset);
      if |w| < 12 then Panic else Ok(HexAddress(w[12..]))
    }

    function BytesAt(base: int64): Outcome<seq<byte>> {
      var n :- IntAt(base);
      var start := Wrap64(base + 32);
      if n < 0 || Wrap64(start + n) > |data| then Err else Cut(start, Wrap64(start + n))
    }

    /* ---------- arrays: what the loops compute ---------- */

    /** Element `i` of an `address[]` whose length word is at `base`. */
    function AddressElement(base: int64, i: nat): Outcome<string> {
      AddressAt(Wrap64(base + 32 + i * 32))
    }

    function AddressElements(base: int64): nat -> Outcome<string> {
      (i: nat) => AddressElement(base, i)
    }

    function Addresses(): Outcome<seq<string>> {
      var base :- OffsetAt(0);
      var n :- IntAt(base);
      var _ :- Make(n, 16);
      Collect(AddressElements(base), 0, n)
    }

    /** Element `i` of a dynamic array: its offset is relative to the first element. */
    function ElementAt(items: int64, i: nat): Outcome<seq<byte>> {
      var rel :- OffsetAt(Wrap64(items + i * 32));
      BytesAt(Wrap64(items + rel))
    }

    function Elements(items: int64): nat -> Outcome<seq<byte>> {
      (i: nat) => ElementAt(items, i)
    }

    /** The dynamic array whose length word is at `base`, in elements of `size` bytes each. */
    function BytestringsAt(base: int64, size: nat): Outcome<seq<seq<byte>>> {
      var n :- IntAt(base);
      var _ :- Make(n, size);
      Collect(Elements(Wrap64(base + 32)), 0, n)
    }

    /* ---------- the loops ---------- */

    /** `addressArray`. */
    method AddressArray() returns (r: Outcome<seq<string>>)
      ensures r == Addresses()
    {
      var base :- OffsetAt(0);
      var n :- IntAt(base);
      var _ :- Make(n, 16);
      var out: seq<string> := [];
      hide AddressElement;
      ghost var f := AddressElements(base);
      PrependNothing(Collect(f, 0, n));
      for i := 0 to n
        invariant Collect(f, 0, n) == Prepend(out, Collect(f, i, n))
      {
        var addr :- AddressElement(base, i);
        PrependStep(out, addr, Collect(f, i + 1, n));
        out := out + [addr];
      }
      assert out + [] == out;
      return Ok(out);
    }

    /** The loop `bytesArray` and `stringArrayAt` share. */
    method ReadBytestrings(items: int64, n: nat) returns (r: Outcome<seq<seq<byte>>>)
      ensures r == Collect(Elements(items), 0, n)
    {
      var out: seq<seq<byte>> := [];
      hide ElementAt;
      ghost var f := Elements(items);
      PrependNothing(Collect(f, 0, n));
      for i := 0 to n
        invariant Collect(f, 0, n) == Prepend(out, Collect(f, i, n))
      {
        var raw :- ElementAt(items, i);
        PrependStep(out, raw, Collect(f, i + 1, n));
        out := out + [raw];
      }
      assert out + [] == out;
      return Ok(out);
    }

    /** `bytesArray`: `bytes[]` as the sole return value; Go slices are 24 bytes. */
    method BytesArray() returns (r: Outcome<seq<seq<byte>>>)
      ensures r == (var base :- OffsetAt(0); BytestringsAt(base, 24))
    {
      var base :- OffsetAt(0);
      var n :- IntAt(base);
      var _ :- Make(n, 24);
      r := ReadBytestrings(Wrap64(base + 32), n);
    }

    /** `stringArrayAt`: Go strings are 16 bytes. */
    method StringArrayAt(base: int64) returns (r: Outcome<seq<seq<byte>>>)
      ensures r == BytestringsAt(base, 16)
    {
      var n :- IntAt(base);
      var _ :- Make(n, 16);
      r := ReadBytestrings(Wrap64(base + 32), n);
    }
  }

  /** Reading elements `i` to `n` in order, up to the first that fails. */
  function Collect<T>(f: nat -> Outcome<T>, i: nat, n: nat): Outcome<seq<T>>
    requires i <= n
    decreases n - i
  {
    if i == n then Ok([])
    else
      var x :- f(i);
      var rest :- Collect(f, i + 1, n);
      Ok([x] + rest)
  }

  lemma {:induction false} Collected<T>(f: nat -> Outcome<T>, xs: seq<T>, i: nat)
    requires i <= |xs| && forall j :: i <= j < |xs| ==> f(j) == Ok(xs[j])
    ensures Collect(f, i, |xs|) == Ok(xs[i..])
    decreases |xs| - i
  {
    if i < |xs| {
      Collected(f, xs, i + 1);
      assert [xs[i]] + xs[i + 1..] == xs[i..];
    } else {
      assert xs[i..] == [];
    }
  }

  lemma CollectedAll<T>(f: nat -> Outcome<T>, xs: seq<T>)
    requires forall j :: 0 <= j < |xs| ==> f(j) == Ok(xs[j])
    ensures Collect(f, 0, |xs|) == Ok(xs)
  {
    Collected(f, xs, 0);
    assert xs[0..] == xs;
  }

  /** What has been read so far, followed by what the rest of the loop reads. */
  function Prepend<T>(out: seq<T>, rest: Outcome<seq<T>>): Outcome<seq<T>> {
    if rest.Ok? then Ok(out + rest.value) else rest
  }

  lemma PrependNothing<T>(rest: Outcome<seq<T>>)
    ensures Prepend([], rest) == rest
  {
    if rest.Ok? {
      assert [] + rest.value == rest.value;
    }
  }

  lemma PrependStep<T>(out: seq<T>, x: T, rest: Outcome<seq<T>>)
    ensures Prepend(out, Prepend([x], rest)) == Prepend(out + [x], rest)
  {
    if rest.Ok? {
      assert out + ([x] + rest.value) == out + [x] + rest.value;
    }
  }
}
