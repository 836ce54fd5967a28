/**
 The C library's `strcmp`, as both OTA tasks use it to compare the version
 string of the candidate image with that of the running image.

 A C string is modelled by the characters before its terminating NUL, so a
 `string` here never holds the terminator itself.
 */
module CString {

  /** `strcmp(a, b)`: negative, zero or positive as `a` sorts before, equal
      to or after `b`, comparing character by character by code and treating
      a proper prefix as smaller. C promises only the sign of the result, so
      the model returns -1, 0 or 1. */
  function Strcmp(a: string, b: string): (r: int)
    ensures -1 <= r <= 1
    ensures a == b ==> r == 0
  {
    if a == [] && b == [] then 0
    else if a == [] then -1
    else if b == [] then 1
    else if a[0] < b[0] then -1
    else if a[0] > b[0] then 1
    else Strcmp(a[1..], b[1..])
  }

  /** `strcmp` reports equality exactly when the two strings are the same. */
  lemma {:induction false} StrcmpZeroIff(a: string, b: string)
    ensures Strcmp(a, b) == 0 <==> a == b
  {
    if a != [] && b != [] && a[0] == b[0] {
      StrcmpZeroIff(a[1..], b[1..]);
      assert a == [a[0]] + a[1..] && b == [b[0]] + b[1..];
    }
  }

  /** Swapping the arguments of `strcmp` flips the sign of its result. */
  lemma {:induction false} StrcmpAntisymmetric(a: string, b: string)
    ensures Strcmp(a, b) == -Strcmp(b, a)
  {
    if a != [] && b != [] && a[0] == b[0] {
      StrcmpAntisymmetric(a[1..], b[1..]);
    }
  }
}
