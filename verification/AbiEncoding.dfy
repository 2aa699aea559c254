/**
  The canonical encoding of the Solidity contract ABI ("Formal Specification of the Encoding"),
  for the types the platform's calls use. It is the reference the decoders are proved against.
 */
module AbiEncoding {
  import opened Bytes

  function Word(n: nat): (w: seq<byte>)
    ensures |w| == 32
  {
    ToBE(n, 32)
  }

  function AddressWord(raw: seq<byte>): (w: seq<byte>)
    requires |raw| == 20
    ensures |w| == 32
  {
    Zeros(12) + raw
  }

  function BoolWord(b: bool): (w: seq<byte>)
    ensures |w| == 32
  {
    Zeros(31) + [if b then 1 else 0]
  }

  /** Zero bytes that complete `b` to whole words. */
  function Padding(b: seq<byte>): seq<byte> {
    Zeros((32 - |b| % 32) % 32)
  }

  /* ---------- tuples: one head word per component, then the tails ---------- */

  datatype Component = Static(word: seq<byte>) | Dynamic(tail: seq<byte>)

  ghost predicate WellFormed(cs: seq<Component>) {
    forall c :: c in cs && c.Static? ==> |c.word| == 32
  }

  function TailOf(c: Component): seq<byte> {
    if c.Static? then [] else c.tail
  }

  /** The heads, where `off` is the offset of the next tail from the start of the tuple. */
  function Heads(cs: seq<Component>, off: nat): seq<byte> {
    if cs == [] then []
    else HeadOf(cs[0], off) + Heads(cs[1..], off + |TailOf(cs[0])|)
  }

  function Tails(cs: seq<Component>): seq<byte> {
    if cs == [] then [] else TailOf(cs[0]) + Tails(cs[1..])
  }

  function Tuple(cs: seq<Component>): seq<byte> {
    Heads(cs, 32 * |cs|) + Tails(cs)
  }

  /** How far into the tails component `i`'s tail starts. */
  function TailOffset(cs: seq<Component>, i: nat): nat
    requires i <= |cs|
  {
    if i == 0 then 0 else |TailOf(cs[0])| + TailOffset(cs[1..], i - 1)
  }

  /** The offset a dynamic component's head word holds. */
  function ComponentOffset(cs: seq<Component>, i: nat): nat
    requires i <= |cs|
  {
    32 * |cs| + TailOffset(cs, i)
  }

  /* ---------- values ---------- */

  function Bytestring(b: seq<byte>): seq<byte> {
    Word(|b|) + (b + Padding(b))
  }

  function Array(elements: seq<Component>): seq<byte> {
    Word(|elements|) + Tuple(elements)
  }

  function Addresses(xs: seq<seq<byte>>): (cs: seq<Component>)
    requires forall x :: x in xs ==> |x| == 20
    ensures |cs| == |xs| && forall i :: 0 <= i < |xs| ==> cs[i] == Static(AddressWord(xs[i]))
  {
    seq(|xs|, i requires 0 <= i < |xs| => Static(AddressWord(xs[i])))
  }

  function Bytestrings(xs: seq<seq<byte>>): (cs: seq<Component>)
    ensures |cs| == |xs| && forall i :: 0 <= i < |xs| ==> cs[i] == Dynamic(Bytestring(xs[i]))
  {
    seq(|xs|, i requires 0 <= i < |xs| => Dynamic(Bytestring(xs[i])))
  }

  /** A function that returns one dynamic value returns a one-component tuple. */
  function Returned(encoding: seq<byte>): seq<byte> {
    Tuple([Dynamic(encoding)])
  }

  /* ---------- where the pieces are ---------- */

  function HeadOf(c: Component, off: nat): seq<byte> {
    if c.Static? then c.word else Word(off)
  }

  lemma {:induction false} HeadAt(data: seq<byte>, p: nat, cs: seq<Component>, off: nat, i: nat, q: nat, o: nat)
    requires WellFormed(cs) && i < |cs| && At(data, p, Heads(cs, off))
    requires q == p + 32 * i && o == off + TailOffset(cs, i)
    ensures At(data, q, HeadOf(cs[i], o))
    decreases i
  {
    var next := off + |TailOf(cs[0])|;
    AtSplitAs(data, p, HeadOf(cs[0], off), Heads(cs[1..], next), p + 32);
    if i > 0 {
      HeadAt(data, p + 32, cs[1..], next, i - 1, q, o);
    }
  }

  lemma {:induction false} TailAt(data: seq<byte>, p: nat, cs: seq<Component>, i: nat, q: nat)
    requires i < |cs| && At(data, p, Tails(cs)) && q == p + TailOffset(cs, i)
    ensures At(data, q, TailOf(cs[i]))
    decreases i
  {
    AtSplit(data, p, TailOf(cs[0]), Tails(cs[1..]));
    if i > 0 {
      TailAt(data, p + |TailOf(cs[0])|, cs[1..], i - 1, q);
    }
  }

  lemma {:induction false} HeadsLength(cs: seq<Component>, off: nat)
    requires WellFormed(cs)
    ensures |Heads(cs, off)| == 32 * |cs|
  {
    if cs != [] {
      HeadsLength(cs[1..], off + |TailOf(cs[0])|);
    }
  }

  lemma TupleAt(data: seq<byte>, p: nat, cs: seq<Component>)
    requires WellFormed(cs) && At(data, p, Tuple(cs))
    ensures At(data, p, Heads(cs, 32 * |cs|)) && At(data, p + 32 * |cs|, Tails(cs))
  {
    hide Heads, Tails, WellFormed;
    HeadsLength(cs, 32 * |cs|);
    AtSplitAs(data, p, Heads(cs, 32 * |cs|), Tails(cs), p + 32 * |cs|);
  }

  /** In an encoded tuple at `p`, slot `i` holds the value itself or the offset, from `p`, at which it is found. */
  lemma ComponentAt(data: seq<byte>, p: nat, cs: seq<Component>, i: nat)
    requires WellFormed(cs) && i < |cs| && At(data, p, Tuple(cs))
    ensures At(data, p + 32 * i, HeadOf(cs[i], ComponentOffset(cs, i)))
    ensures At(data, p + ComponentOffset(cs, i), TailOf(cs[i]))
  {
    TupleAt(data, p, cs);
    HeadAt(data, p, cs, 32 * |cs|, i, p + 32 * i, ComponentOffset(cs, i));
    TailAt(data, p + 32 * |cs|, cs, i, p + ComponentOffset(cs, i));
  }

  lemma StaticAt(data: seq<byte>, p: nat, cs: seq<Component>, i: nat, q: nat)
    requires WellFormed(cs) && i < |cs| && cs[i].Static? && At(data, p, Tuple(cs)) && q == p + 32 * i
    ensures At(data, q, cs[i].word)
  {
    ComponentAt(data, p, cs, i);
  }
}
