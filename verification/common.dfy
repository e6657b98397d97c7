/** Shared vocabulary of the runtime model: an optional value (the source's
    `Option` and its nullable raw pointers), task identities and their
    scheduling status, and the 32-bit unsigned integer of the target. */
module Common {

  datatype Option<T> = None | Some(value: T)

  /** Identity of a task descriptor owned by the external scheduler. */
  type TaskId = nat

  /** The two scheduling states the primitives set on a task. */
  datatype Status = Runnable | Blocked

  const U32_LIMIT: int := 0x1_0000_0000

  /** `uint` on the 32-bit target. */
  type u32 = x: int | 0 <= x < U32_LIMIT

  /** `x - 1` on a 32-bit unsigned integer: wraps to the maximum at zero. */
  function DecWrap(x: u32): (r: u32)
    ensures x > 0 ==> r + 1 == x
    ensures x == 0 ==> r == U32_LIMIT - 1
  {
    if x == 0 then U32_LIMIT - 1 else x - 1
  }

  /** `x + 1` on a 32-bit unsigned integer: wraps to zero at the maximum. */
  function IncWrap(x: u32): (r: u32)
    ensures x < U32_LIMIT - 1 ==> r == x + 1
    ensures x == U32_LIMIT - 1 ==> r == 0
  {
    if x == U32_LIMIT - 1 then 0 else x + 1
  }

  /** No element occurs twice: an intrusive node can be linked at one place only. */
  predicate NoDup<T(==)>(xs: seq<T>)
  {
    forall i, j | 0 <= i < j < |xs| :: xs[i] != xs[j]
  }

  /** Index of the first occurrence of `x` in `xs`. */
  function IndexOf<T(==)>(xs: seq<T>, x: T): (i: nat)
    requires x in xs
    ensures i < |xs| && xs[i] == x
    ensures forall j | 0 <= j < i :: xs[j] != x
  {
    if xs[0] == x then 0 else 1 + IndexOf(xs[1..], x)
  }
}
