/** The window a list request takes out of the matching books, with the
    index rules of ECMAScript's Array.prototype.slice. */
module Slice {

  /** Resolves one relative slice bound against a sequence of length `len`:
      a negative bound counts back from the end, and the result is clamped
      into [0, len]. */
  function ClampIndex(k: int, len: nat): (r: nat)
    ensures r <= len
    ensures 0 <= k <= len ==> r == k
    ensures k > len ==> r == len
    ensures k < 0 && 0 <= len + k ==> r == len + k
    ensures len + k < 0 ==> r == 0
  {
    if k < 0 then
      if len + k < 0 then 0 else len + k
    else if k > len then len
    else k
  }

  /** Slicing from `start` to `end`: the elements from the resolved start up to, not
      including, the resolved end; empty when the end does not lie past the
      start. */
  function JsSlice<T>(s: seq<T>, start: int, end: int): (r: seq<T>)
    ensures |r| <= |s|
    ensures 0 <= start <= end ==> |r| <= end - start
    ensures ClampIndex(start, |s|) + |r| <= |s|
    ensures |r| == if ClampIndex(start, |s|) < ClampIndex(end, |s|)
                   then ClampIndex(end, |s|) - ClampIndex(start, |s|) else 0
    ensures forall k :: 0 <= k < |r| ==> r[k] == s[ClampIndex(start, |s|) + k]
  {
    var a := ClampIndex(start, |s|);
    var b := ClampIndex(end, |s|);
    if a < b then s[a..b] else []
  }

  /** First index of page `page` when pages hold `size` elements. */
  function PageStart(page: int, size: int): int {
    (page - 1) * size
  }

  /** For a page numbered from 1 and a non-negative page size, the window is
      the contiguous run of `s` from the page's first index, `size` long or cut
      short by the end of `s`, and empty once the page starts past the end. */
  lemma {:induction false} PageWindow<T>(s: seq<T>, page: int, size: int)
    requires page >= 1 && size >= 0
    ensures var start := PageStart(page, size);
            var w := JsSlice(s, start, start + size);
            && 0 <= start
            && |w| <= size
            && (start >= |s| ==> w == [])
            && (start < |s| ==> w == s[start..if start + size <= |s| then start + size else |s|])
  {
    var start := PageStart(page, size);
    StartNonNegative(page, size);
    var end := start + size;
    var a := ClampIndex(start, |s|);
    var b := ClampIndex(end, |s|);
    assert a == if start <= |s| then start else |s|;
    assert b == if end <= |s| then end else |s|;
  }

  /** The first index of a page numbered from 1 is never negative. */
  lemma StartNonNegative(page: int, size: int)
    requires page >= 1 && size >= 0
    ensures PageStart(page, size) >= 0
  {
    assert (page - 1) * size >= 0 * size;
  }
}
