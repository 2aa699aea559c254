/** Results of Go and TypeScript calls. */
module Outcomes {

  datatype Option<+T> = None | Some(value: T)

  /** A call that either yields a value or reports an error. */
  datatype Result<+T, +E> = Success(value: T) | Failure(error: E) {
    predicate IsFailure() { Failure? }
    function PropagateFailure<U>(): Result<U, E>
      requires Failure?
    {
      Failure(error)
    }
    function Extract(): T
      requires Success?
    {
      value
    }
  }

  /** A Go call can also end the request: indexing outside a slice and asking `make` for too much both panic. */
  datatype Outcome<+T> = Ok(value: T) | Err | Panic {
    predicate IsFailure() { !Ok? }
    function PropagateFailure<U>(): Outcome<U>
      requires !Ok?
    {
      if Err? then Err else Panic
    }
    function Extract(): T
      requires Ok?
    {
      value
    }
  }

  /** Go's `int` and `int64`. */
  type int64 = n: int | -0x8000_0000_0000_0000 <= n < 0x8000_0000_0000_0000

  const MAX_INT64: int64 := 0x7fff_ffff_ffff_ffff

  /** The value a 64-bit sum holds: two's complement. */
  function Wrap64(n: int): int64
    decreases if n < 0 then -2 * n else 2 * n + 1
  {
    if n > MAX_INT64 then Wrap64(n - 0x1_0000_0000_0000_0000)
    else if n < -0x8000_0000_0000_0000 then Wrap64(n + 0x1_0000_0000_0000_0000)
    else n
  }

  /** It differs from the sum by a multiple of 2^64. */
  lemma {:induction false} WrapExactly(n: int) returns (k: int)
    ensures Wrap64(n) == n + k * 0x1_0000_0000_0000_0000
    ensures k == 0 <==> -0x8000_0000_0000_0000 <= n < 0x8000_0000_0000_0000
    decreases if n < 0 then -2 * n else 2 * n + 1
  {
    if n > MAX_INT64 {
      k := WrapExactly(n - 0x1_0000_0000_0000_0000);
      k := k - 1;
    } else if n < -0x8000_0000_0000_0000 {
      k := WrapExactly(n + 0x1_0000_0000_0000_0000);
      k := k + 1;
    } else {
      k := 0;
    }
  }

  /** The largest object Go's runtime allocates on a 64-bit platform; no slice is longer. */
  const MAX_ALLOC: nat := 0x1_0000_0000_0000
}
