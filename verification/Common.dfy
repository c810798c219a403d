/**
 An optional value, positions in a circular array, regrouping of concatenations, and the error codes of
 the device-access kit that the models return.
 */
module Common {
  datatype Option<T> = None | Some(value: T)

  /** A position at most one lap ahead, brought back into an array of n elements. */
  function Lap(x: nat, n: nat): nat {
    if x < n then x else x - n
  }

  lemma LapIsRemainder(x: nat, n: nat)
    requires x < 2 * n
    ensures Lap(x, n) == x % n
  {
    if x >= n {
      assert x == (x - n) + n && (x - n) % n == x - n;
    }
  }

  lemma Regroup<T>(a: seq<T>, b: seq<T>, c: seq<T>)
    ensures a + (b + c) == (a + b) + c
  {
  }

  const LE_SUCCESS := 0
  const LE_ERROR_UNKNOWN := 100000
  const LE_ERROR_INVALID_PARAM := 100001
  const LE_ERROR_ALLOCATING_MEM := 100002
  const LE_ERROR_TIMEOUT := 100006
}
