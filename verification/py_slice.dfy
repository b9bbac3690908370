/** Python's slice bounds: a negative bound counts from the end, and any
    bound is clamped into 0..len. `s[-k:]` with k == 0 is `s[0:]`, the whole
    sequence, which several callers rely on without meaning to. */
module PySlice {

  /** The index that a Python slice bound `i` denotes in a sequence of length n. */
  function Bound(i: int, n: nat): (r: nat)
    ensures r <= n
    ensures 0 <= i <= n ==> r == i
    ensures i < 0 && -i <= n ==> r == n + i
  {
    if i < 0 then (if n + i < 0 then 0 else n + i)
    else if i > n then n
    else i
  }

  /** Python `s[start:]`. */
  function From<T>(s: seq<T>, start: int): seq<T> {
    s[Bound(start, |s|)..]
  }

  /** Python `s[:end]`. */
  function To<T>(s: seq<T>, end: int): seq<T> {
    s[..Bound(end, |s|)]
  }

  /** `s[-k:]` keeps the last k elements when 0 < k, and everything when k == 0. */
  lemma LastK<T>(s: seq<T>, k: int)
    ensures k == 0 ==> From(s, -k) == s
    ensures 0 < k ==> From(s, -k) == s[|s| - (if k <= |s| then k else |s|)..]
    ensures k < 0 ==> From(s, -k) == s[(if -k <= |s| then -k else |s|)..]
  {
  }

  /** `s[:k]` keeps the first k elements when 0 <= k, and drops the last -k otherwise. */
  lemma FirstK<T>(s: seq<T>, k: int)
    ensures 0 <= k ==> |To(s, k)| == (if k <= |s| then k else |s|)
    ensures k < 0 ==> |To(s, k)| == (if -k <= |s| then |s| + k else 0)
    ensures To(s, k) == s[..|To(s, k)|]
  {
  }

  /** `s[-k:]` for k >= 0 is a suffix of s: its length is min(k, |s|), or |s|
      when k == 0, and its elements are the last ones of s in order. */
  lemma SuffixSlice<T>(s: seq<T>, k: int)
    ensures k == 0 ==> |From(s, -k)| == |s|
    ensures 0 < k ==> |From(s, -k)| == (if k <= |s| then k else |s|)
    ensures k < 0 ==> |From(s, -k)| == |s| - (if -k <= |s| then -k else |s|)
    ensures From(s, -k) == s[|s| - |From(s, -k)|..]
  {
  }
}
