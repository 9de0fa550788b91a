/**
 * The few pieces of Python's string semantics the ribozyme scripts rely on:
 * `str.find` (first occurrence, -1 when absent), `str.rfind`, and slicing
 * `s[a:b]`, whose bounds wrap around when negative and are clamped to the
 * length of the string.
 */
module Strings {

  datatype Option<T> = None | Some(value: T)

  /** `s.find(c, from)`: the first index at or after `from` holding `c`, or -1. */
  function FindChar(s: string, c: char, from: nat): (r: int)
    decreases |s| - from
    ensures r == -1 || (from <= r < |s| && s[r] == c)
    ensures r == -1 ==> forall k :: from <= k < |s| ==> s[k] != c
    ensures r != -1 ==> forall k :: from <= k < r ==> s[k] != c
  {
    if from >= |s| then -1
    else if s[from] == c then from
    else FindChar(s, c, from + 1)
  }

  /** The last index below `n` holding `c`, or -1. */
  function FindLastBefore(s: string, c: char, n: nat): (r: int)
    requires n <= |s|
    ensures r == -1 || (0 <= r < n && s[r] == c)
    ensures forall k :: r < k < n ==> s[k] != c
  {
    if n == 0 then -1
    else if s[n - 1] == c then n - 1
    else FindLastBefore(s, c, n - 1)
  }

  /** `s.rfind(c)`: the last index holding `c`, or -1. */
  function RFindChar(s: string, c: char): (r: int)
    ensures r == -1 || (0 <= r < |s| && s[r] == c)
    ensures forall k :: r < k < |s| ==> s[k] != c
  {
    FindLastBefore(s, c, |s|)
  }

  /** Does `pat` occur in `text` at index `i`? */
  predicate OccursAt(text: string, pat: string, i: nat)
  {
    i + |pat| <= |text| && text[i..i + |pat|] == pat
  }

  function FindSubFrom(text: string, pat: string, from: nat): (r: int)
    decreases |text| - from
    ensures r == -1 || (from <= r && OccursAt(text, pat, r))
    ensures r == -1 ==> forall k :: from <= k <= |text| ==> !OccursAt(text, pat, k)
    ensures r != -1 ==> forall k :: from <= k < r ==> !OccursAt(text, pat, k)
  {
    if from + |pat| > |text| then -1
    else if text[from..from + |pat|] == pat then from
    else FindSubFrom(text, pat, from + 1)
  }

  /** `text.find(pat)`: the first index where `pat` occurs, or -1. */
  function FindSub(text: string, pat: string): (r: int)
    ensures r == -1 || (0 <= r && OccursAt(text, pat, r))
    ensures r == -1 ==> forall k :: 0 <= k <= |text| ==> !OccursAt(text, pat, k)
    ensures r != -1 ==> forall k :: 0 <= k < r ==> !OccursAt(text, pat, k)
  {
    FindSubFrom(text, pat, 0)
  }

  /** How Python turns a slice bound into an index of a sequence of length n. */
  function ClampBound(k: int, n: nat): (r: nat)
    ensures r <= n
    ensures 0 <= k <= n ==> r == k
    ensures k > n ==> r == n
    ensures k < 0 ==> r == if k + n < 0 then 0 else k + n
  {
    if k < 0 then (if k + n < 0 then 0 else k + n)
    else if k > n then n
    else k
  }

  /** `s[a:b]` */
  function Slice<T>(s: seq<T>, a: int, b: int): (r: seq<T>)
    ensures 0 <= a <= b <= |s| ==> r == s[a..b]
    ensures |r| <= |s|
    ensures |r| == if ClampBound(a, |s|) < ClampBound(b, |s|)
                   then ClampBound(b, |s|) - ClampBound(a, |s|) else 0
  {
    var i, j := ClampBound(a, |s|), ClampBound(b, |s|);
    if i < j then s[i..j] else []
  }
}
