/**
  When the decoders of chain/abi.go and chain/client.go panic, although abi.go:55-57 promises an error: exactly when a
  length word fits an int64 and either its end does not, or the slice to be made for it is too large.
 */
module AbiPanics {
  import opened Outcomes
  import opened Bytes
  import opened AbiDecoder
  import opened AbiRoundTrip
  import opened ChainClient
  import Abi = AbiEncoding

  /** The first of n readings that is not a value is a panic. */
  ghost predicate PanicsAt<T>(f: nat -> Outcome<T>, i: nat, k: nat, n: nat) {
    i <= k < n && f(k).Panic? && forall j :: i <= j < k ==> f(j).Ok?
  }

  lemma {:induction false} CollectPanics<T>(f: nat -> Outcome<T>, i: nat, n: nat)
    requires i <= n
    ensures Collect(f, i, n).Panic? <==> exists k: nat :: PanicsAt(f, i, k, n)
    decreases n - i
  {
    if i < n {
      CollectPanics(f, i + 1, n);
      if f(i).Ok? && Collect(f, i + 1, n).Panic? {
        var k: nat :| PanicsAt(f, i + 1, k, n);
        assert PanicsAt(f, i, k, n);
      }
      if k: nat :| PanicsAt(f, i, k, n) {
        if k > i {
          assert PanicsAt(f, i + 1, k, n);
        }
      }
      if f(i).Panic? {
        assert PanicsAt(f, i, i, n);
      }
    }
  }

  /* ---------- accessors ---------- */

  /** Numbers and addresses are read without panicking. */
  lemma NumbersNeverPanic(d: Decoder, p: nat)
    requires p <= MAX_INT64 - 32
    ensures !d.IntAt(p).Panic? && !d.OffsetAt(p).Panic? && !d.AddressAt(p).Panic? && !d.BoolAt(p).Panic?
    ensures d.IntAt(p).Ok? ==> p + 32 <= |d.data|
    ensures d.OffsetAt(p).Ok? ==> p + 32 <= |d.data| && 0 <= d.OffsetAt(p).value <= |d.data|
  {
    WordExact(d, p);
  }

  /** The data holds a length word at p that fits an int64, while the end of what it announces does not. */
  predicate LengthOverflows(d: Decoder, p: nat) {
    p + 32 <= |d.data| && FromBE(d.data[p..p + 32]) <= MAX_INT64 < p + 32 + FromBE(d.data[p..p + 32])
  }

  lemma BytesAtPanics(d: Decoder, p: nat)
    requires p <= 4 * MAX_ALLOC
    ensures d.BytesAt(p).Panic? <==> LengthOverflows(d, p)
  {
    BytesAtExact(d, p);
  }

  /* ---------- addressArray ---------- */

  lemma AddressElementNeverPanics(d: Decoder, base: nat, i: nat)
    requires base <= MAX_ALLOC && i <= MAX_ALLOC
    ensures !d.AddressElement(base, i).Panic?
  {
    NumbersNeverPanic(d, base + 32 + i * 32);
  }

  /** `addressArray` panics exactly when it announces more addresses than a slice can hold. */
  lemma AddressesPanicExactly(d: Decoder)
    ensures d.Addresses().Panic? <==>
            && d.OffsetAt(0).Ok? && d.IntAt(d.OffsetAt(0).value).Ok?
            && 16 * d.IntAt(d.OffsetAt(0).value).value > MAX_ALLOC
  {
    hide Decoder.OffsetAt, Decoder.IntAt, Decoder.AddressAt, Decoder.AddressElement;
    NumbersNeverPanic(d, 0);
    if d.OffsetAt(0).Ok? {
      var base: nat := d.OffsetAt(0).value;
      NumbersNeverPanic(d, base);
      if d.IntAt(base).Ok? && 16 * d.IntAt(base).value <= MAX_ALLOC {
        var n: nat := d.IntAt(base).value;
        var f := d.AddressElements(base);
        CollectPanics(f, 0, n);
        forall k: nat | k < n
          ensures !f(k).Panic?
        {
          AddressElementNeverPanics(d, base, k);
        }
      }
    }
  }

  /** Sixty-four bytes on which it panics: an array of 2^44 + 1 addresses. */
  lemma HugeArrayPanics()
    ensures Decoder(Abi.Word(32) + Abi.Word(0x1000_0000_0001)).Addresses() == Panic
  {
    hide Decoder.OffsetAt, Decoder.IntAt, Decoder.Addresses, FromBE, ToBE;
    var d := Decoder(Abi.Word(32) + Abi.Word(0x1000_0000_0001));
    assert At(d.data, 0, Abi.Word(32)) && At(d.data, 32, Abi.Word(0x1000_0000_0001));
    IntAtWord(d, 0, 32);
    IntAtWord(d, 32, 0x1000_0000_0001);
    AddressesPanicExactly(d);
  }

  /* ---------- bytesArray and stringArrayAt ---------- */

  /** Where element i of a dynamic array starts. */
  function ElementStart(d: Decoder, items: nat, i: nat): nat
    requires items + 32 * i <= MAX_INT64 && d.OffsetAt(items + 32 * i).Ok?
  {
    items + d.OffsetAt(items + 32 * i).value
  }

  /** Element i can be read at all, and its length overflows. */
  predicate ElementOverflows(d: Decoder, items: nat, i: nat)
    requires items + 32 * i <= MAX_INT64
  {
    d.OffsetAt(items + 32 * i).Ok? && LengthOverflows(d, ElementStart(d, items, i))
  }

  lemma ElementPanics(d: Decoder, items: nat, i: nat)
    requires items <= MAX_ALLOC + 32 && i <= MAX_ALLOC
    ensures d.ElementAt(items, i).Panic? <==> ElementOverflows(d, items, i)
  {
    hide Decoder.OffsetAt, Decoder.BytesAt, LengthOverflows;
    NumbersNeverPanic(d, items + 32 * i);
    if d.OffsetAt(items + 32 * i).Ok? {
      BytesAtPanics(d, ElementStart(d, items, i));
    }
  }

  /** The elements before k are read, and element k's length overflows. */
  ghost predicate FirstOverflow(d: Decoder, items: nat, k: nat, n: nat)
    requires items + 32 * n <= MAX_INT64
  {
    k < n && ElementOverflows(d, items, k) && forall j :: 0 <= j < k ==> d.ElementAt(items, j).Ok?
  }

  ghost predicate SomeOverflow(d: Decoder, items: nat, n: nat)
    requires items + 32 * n <= MAX_INT64
  {
    exists k: nat :: FirstOverflow(d, items, k, n)
  }

  lemma ElementsPanic(d: Decoder, items: nat, n: nat)
    requires items <= MAX_ALLOC + 32 && n <= MAX_ALLOC
    ensures (exists k: nat :: PanicsAt(d.Elements(items), 0, k, n)) <==> SomeOverflow(d, items, n)
  {
    hide Decoder.ElementAt, ElementOverflows;
    var f := d.Elements(items);
    assert forall k: nat :: f(k) == d.ElementAt(items, k);
    if k: nat :| PanicsAt(f, 0, k, n) {
      ElementPanics(d, items, k);
      assert forall j: nat :: j < k ==> f(j).Ok?;
      assert FirstOverflow(d, items, k, n);
    }
    if k: nat :| FirstOverflow(d, items, k, n) {
      ElementPanics(d, items, k);
      assert PanicsAt(f, 0, k, n);
    }
  }

  /** The array at `base` announces more than a slice can hold, or some element's length overflows. */
  ghost predicate ArrayOverflows(d: Decoder, base: nat, size: nat)
    requires base <= 4 * MAX_ALLOC && size > 0
  {
    d.IntAt(base).Ok? &&
    var n: nat := d.IntAt(base).value;
    TooMany(n, size) || (n <= MAX_ALLOC && SomeOverflow(d, base + 32, n))
  }

  predicate TooMany(n: nat, size: nat) {
    n * size > MAX_ALLOC
  }

  lemma FewEnough(n: nat, size: nat)
    requires !TooMany(n, size) && size > 0
    ensures n <= MAX_ALLOC
  {
    MulAtLeast(n, size);
  }

  lemma MulAtLeast(n: nat, size: nat)
    requires size > 0
    ensures n <= n * size
  {
  }

  /** `bytesArray` and `stringArrayAt` panic exactly on an oversized array or at a first element that overflows. */
  lemma BytestringsPanicExactly(d: Decoder, base: nat, size: nat)
    requires base <= 4 * MAX_ALLOC && size > 0
    ensures d.BytestringsAt(base, size).Panic? <==> ArrayOverflows(d, base, size)
  {
    hide Decoder.OffsetAt, Decoder.IntAt, Decoder.ElementAt, ElementOverflows;
    NumbersNeverPanic(d, base);
    if d.IntAt(base).Ok? && !TooMany(d.IntAt(base).value, size) {
      var n: nat, items := d.IntAt(base).value, base + 32;
      FewEnough(n, size);
      CollectPanics(d.Elements(items), 0, n);
      ElementsPanic(d, items, n);
    }
  }

  /** `bytesArray` on return data, which `AuthKeys` reads. */
  lemma BytesArrayPanicsExactly(d: Decoder)
    ensures (var base :- d.OffsetAt(0); d.BytestringsAt(base, 24)).Panic? <==>
            d.OffsetAt(0).Ok? && ArrayOverflows(d, d.OffsetAt(0).value, 24)
  {
    hide Decoder.OffsetAt, Decoder.BytestringsAt, ArrayOverflows;
    NumbersNeverPanic(d, 0);
    if d.OffsetAt(0).Ok? {
      BytestringsPanicExactly(d, d.OffsetAt(0).value, 24);
    }
  }

  /** The smallest such data with an element: one key, whose length is the largest int64. */
  lemma HugeElementPanics()
    ensures var d := Decoder(Abi.Word(32) + Abi.Word(1) + Abi.Word(32) + Abi.Word(MAX_INT64));
            (var base :- d.OffsetAt(0); d.BytestringsAt(base, 24)) == Panic
  {
    hide FromBE, ToBE, Decoder.OffsetAt, Decoder.IntAt, Decoder.BytestringsAt, Decoder.ElementAt, Abi.Word;
    var d := Decoder(Abi.Word(32) + Abi.Word(1) + Abi.Word(32) + Abi.Word(MAX_INT64));
    assert At(d.data, 0, Abi.Word(32)) && At(d.data, 32, Abi.Word(1)) && At(d.data, 64, Abi.Word(32));
    assert At(d.data, 96, Abi.Word(MAX_INT64));
    IntAtWord(d, 0, 32);
    IntAtWord(d, 32, 1);
    IntAtWord(d, 64, 32);
    WordValue(MAX_INT64);
    assert ElementOverflows(d, 64, 0);
    assert FirstOverflow(d, 64, 0, 1);
    BytesArrayPanicsExactly(d);
  }

  /* ---------- Issuers ---------- */

  /** The issuer's own length overflows, or it is read and its client ids overflow. */
  ghost predicate IssuerOverflows(d: Decoder, tuple: nat)
    requires tuple <= 2 * MAX_ALLOC + 32
  {
    || (d.OffsetAt(tuple).Ok? && LengthOverflows(d, tuple + d.OffsetAt(tuple).value))
    || (&& IssuerNameAt(d, tuple).Ok? && d.OffsetAt(tuple + 32).Ok?
        && ArrayOverflows(d, tuple + d.OffsetAt(tuple + 32).value, 16))
  }

  lemma IssuerPanics(d: Decoder, tuple: nat)
    requires tuple <= 2 * MAX_ALLOC + 32
    ensures IssuerAt(d, tuple).Panic? <==> IssuerOverflows(d, tuple)
  {
    hide Decoder.OffsetAt, Decoder.BytesAt, Decoder.BytestringsAt, LengthOverflows, ArrayOverflows;
    NumbersNeverPanic(d, tuple);
    NumbersNeverPanic(d, tuple + 32);
    if d.OffsetAt(tuple).Ok? {
      BytesAtPanics(d, tuple + d.OffsetAt(tuple).value);
    }
    if d.OffsetAt(tuple + 32).Ok? {
      BytestringsPanicExactly(d, tuple + d.OffsetAt(tuple + 32).value, 16);
    }
  }

  ghost predicate IssuerElementOverflows(d: Decoder, items: nat, i: nat)
    requires items <= MAX_ALLOC + 32 && i <= MAX_ALLOC
  {
    d.OffsetAt(items + 32 * i).Ok? && IssuerOverflows(d, ElementStart(d, items, i))
  }

  lemma IssuerElementPanics(d: Decoder, items: nat, i: nat)
    requires items <= MAX_ALLOC + 32 && i <= MAX_ALLOC
    ensures IssuerElement(d, items, i).Panic? <==> IssuerElementOverflows(d, items, i)
  {
    hide Decoder.OffsetAt, IssuerAt, IssuerOverflows;
    NumbersNeverPanic(d, items + 32 * i);
    if d.OffsetAt(items + 32 * i).Ok? {
      IssuerPanics(d, ElementStart(d, items, i));
    }
  }

  /** The issuers before k are read, and issuer k overflows. */
  ghost predicate FirstIssuerOverflow(d: Decoder, items: nat, k: nat, n: nat)
    requires items <= MAX_ALLOC + 32 && n <= MAX_ALLOC
  {
    k < n && IssuerElementOverflows(d, items, k) && forall j :: 0 <= j < k ==> IssuerElement(d, items, j).Ok?
  }

  ghost predicate SomeIssuerOverflow(d: Decoder, items: nat, n: nat)
    requires items <= MAX_ALLOC + 32 && n <= MAX_ALLOC
  {
    exists k: nat :: FirstIssuerOverflow(d, items, k, n)
  }

  lemma IssuerElementsPanic(d: Decoder, items: nat, n: nat)
    requires items <= MAX_ALLOC + 32 && n <= MAX_ALLOC
    ensures (exists k: nat :: PanicsAt(IssuerElements(d, items), 0, k, n)) <==> SomeIssuerOverflow(d, items, n)
  {
    hide IssuerElement, IssuerElementOverflows;
    var f := IssuerElements(d, items);
    assert forall k: nat :: f(k) == IssuerElement(d, items, k);
    if k: nat :| PanicsAt(f, 0, k, n) {
      IssuerElementPanics(d, items, k);
      assert forall j: nat :: j < k ==> f(j).Ok?;
      assert FirstIssuerOverflow(d, items, k, n);
    }
    if k: nat :| FirstIssuerOverflow(d, items, k, n) {
      IssuerElementPanics(d, items, k);
      assert PanicsAt(f, 0, k, n);
    }
  }

  /** `Issuers` panics exactly on an oversized array or at a first issuer that overflows, or whose client ids do. */
  lemma IssuersPanicExactly(d: Decoder)
    ensures IssuersIn(d).Panic? <==>
            && d.OffsetAt(0).Ok? && d.IntAt(d.OffsetAt(0).value).Ok?
            && var base, n: nat := d.OffsetAt(0).value, d.IntAt(d.OffsetAt(0).value).value;
               TooMany(n, 40) || (n <= MAX_ALLOC && SomeIssuerOverflow(d, base + 32, n))
  {
    hide Decoder.OffsetAt, Decoder.IntAt, IssuerElement, SomeIssuerOverflow;
    NumbersNeverPanic(d, 0);
    if d.OffsetAt(0).Ok? {
      var base: nat := d.OffsetAt(0).value;
      NumbersNeverPanic(d, base);
      if d.IntAt(base).Ok? && !TooMany(d.IntAt(base).value, 40) {
        var n: nat := d.IntAt(base).value;
        FewEnough(n, 40);
        CollectPanics(IssuerElements(d, base + 32), 0, n);
        IssuerElementsPanic(d, base + 32, n);
      }
    }
  }

  /* ---------- Node ---------- */

  /** `Node` panics exactly when its public key's length overflows. */
  lemma NodePanicsExactly(d: Decoder)
    ensures NodeIn(d).Panic? <==>
            && d.OffsetAt(0).Ok? && d.OffsetAt(d.OffsetAt(0).value).Ok?
            && LengthOverflows(d, d.OffsetAt(0).value + d.OffsetAt(d.OffsetAt(0).value).value)
  {
    hide Decoder.OffsetAt, Decoder.IntAt, Decoder.BoolAt, Decoder.AddressAt, Decoder.BytesAt, LengthOverflows;
    NumbersNeverPanic(d, 0);
    if d.OffsetAt(0).Ok? {
      var base: nat := d.OffsetAt(0).value;
      NumbersNeverPanic(d, base);
      NumbersNeverPanic(d, base + 32);
      NumbersNeverPanic(d, base + 64);
      NumbersNeverPanic(d, base + 96);
      NumbersNeverPanic(d, base + 128);
      if d.OffsetAt(base).Ok? {
        BytesAtPanics(d, base + d.OffsetAt(base).value);
      }
    }
  }
}
