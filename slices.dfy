/** Python's open-ended slice `s[k:]`, used with a negated count for "the last n elements". */
module Slices {

  function Min(a: int, b: int): int { if a <= b then a else b }
  function Max(a: int, b: int): int { if a <= b then b else a }

  /** The start index Python uses for `s[k:]` on a sequence of length `n`. */
  function SliceStart(k: int, n: nat): (i: nat)
    ensures i <= n
  {
    if k >= 0 then Min(k, n) else Max(n + k, 0)
  }

  /**
   * `s[k:]` with Python's rules for negative and out-of-range `k`. Read with
   * `k == -n`: for a positive `n` it keeps the last `min(n, |s|)` elements in
   * order; `s[-0:]` is `s[0:]` and keeps everything; for a negative `n` it
   * drops the first `-n` elements.
   */
  function SliceFrom<T>(s: seq<T>, k: int): (r: seq<T>)
    ensures |r| <= |s| && r == s[|s| - |r|..]
    ensures k < 0 ==> |r| == Min(-k, |s|)
    ensures k == 0 ==> r == s
    ensures k > 0 ==> r == s[Min(k, |s|)..]
  {
    s[SliceStart(k, |s|)..]
  }

  /** Taking one more element appends it. */
  lemma TakeNext<T>(s: seq<T>, n: nat)
    requires n < |s|
    ensures s[..n + 1] == s[..n] + [s[n]]
  {
  }

  /**
   * Keeping the last `n` elements, then appending and keeping the last `n`
   * again, is the same as appending first: a bounded window over a stream
   * always holds the newest `n` elements of everything that went in.
   */
  lemma LastOfLast<T>(x: seq<T>, y: seq<T>, n: int)
    requires n >= 1
    ensures SliceFrom(SliceFrom(x, -n) + y, -n) == SliceFrom(x + y, -n)
  {
    var a := SliceFrom(x, -n);
    assert a + y == (x + y)[|x| - |a|..];
  }
}
