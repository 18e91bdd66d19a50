/** Small shared vocabulary: optional values, results, and the clamped slice that
    both JavaScript's `String.prototype.slice` and Python's `s[i:j]` compute for
    non-negative indices. */
module Common {

  datatype Option<+T> = None | Some(value: T)

  datatype Result<+T, +E> = Success(value: T) | Failure(error: E)

  function Min(x: int, y: int): int { if x <= y then x else y }

  function Max(x: int, y: int): int { if x <= y then y else x }

  /** `s.slice(i, j)` in JavaScript and `s[i:j]` in Python, for non-negative
      `i` and `j`: both indices are clamped to the length, and a start at or
      after the end gives the empty string. */
  function ClampedSlice<T>(s: seq<T>, i: nat, j: nat): (r: seq<T>)
    ensures |r| == Max(0, Min(j, |s|) - Min(i, |s|))
    ensures i <= j <= |s| ==> r == s[i..j]
    ensures j <= i ==> r == []
    ensures forall k :: 0 <= k < |r| ==> r[k] == s[i + k]
  {
    var lo := Min(i, |s|);
    var hi := Min(j, |s|);
    if lo >= hi then [] else s[lo..hi]
  }

  /** A sequence of `n` copies of `x`, built by appending at the end. */
  function Repeat<T>(x: T, n: nat): (r: seq<T>)
    ensures |r| == n
  {
    if n == 0 then [] else Repeat(x, n - 1) + [x]
  }
}
