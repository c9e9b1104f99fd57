/** Page arithmetic of the listing: the page count, the slice that makes
    one page, and the Previous / Next clamping of the page number. */
module Pagination {

  /** Cards shown on one page. */
  const ItemsPerPage: nat := 6

  // ---------------------------------------------------------------------
  // Page count
  // ---------------------------------------------------------------------

  /** `Math.ceil(n / k)`: the fewest pages of `k` items that hold `n`
      items. */
  function CeilDiv(n: nat, k: nat): (r: nat)
    requires k > 0
    ensures r * k >= n
    ensures r == 0 || (r - 1) * k < n
  {
    if n == 0 then 0 else 1 + CeilDiv(if n <= k then 0 else n - k, k)
  }

  // ---------------------------------------------------------------------
  // Array.prototype.slice
  // ---------------------------------------------------------------------

  /** How `slice` turns a relative index into a position: a negative index
      counts back from the end, and the result is clamped to `[0, len]`. */
  function ClampIndex(rel: int, len: nat): (r: nat)
    ensures r <= len
    ensures 0 <= rel <= len ==> r == rel
    ensures rel > len ==> r == len
    ensures rel < 0 ==> r == if len + rel < 0 then 0 else len + rel
  {
    if rel < 0 then (if len + rel < 0 then 0 else len + rel)
    else if rel < len then rel
    else len
  }

  /** `s.slice(start, end)`: the elements from the clamped start up to the
      clamped end, or nothing when the end is not after the start. */
  function Slice<T>(s: seq<T>, start: int, end: int): (r: seq<T>)
    ensures |r| <= |s|
  {
    var from := ClampIndex(start, |s|);
    var to := ClampIndex(end, |s|);
    if from < to then s[from..to] else []
  }

  /** `sortedJobs.slice((page - 1) * 6, page * 6)`: no page holds more than
      six cards, whatever the page number. */
  function PageOf<T>(s: seq<T>, page: int): (r: seq<T>)
    ensures |r| <= ItemsPerPage
  {
    var start, end := (page - 1) * ItemsPerPage, page * ItemsPerPage;
    assert end == start + ItemsPerPage;
    Slice(s, start, end)
  }

  /** Page `page` (from 1) is the run of six starting at `(page - 1) * 6`,
      cut short at the end of the list, and empty once it starts past the
      end. */
  lemma PageContents<T>(s: seq<T>, page: int)
    requires page >= 1
    ensures (page - 1) * ItemsPerPage < |s| ==>
      PageOf(s, page) == s[(page - 1) * ItemsPerPage..if page * ItemsPerPage < |s| then page * ItemsPerPage else |s|]
    ensures (page - 1) * ItemsPerPage >= |s| ==> PageOf(s, page) == []
  {
    var start, end := (page - 1) * ItemsPerPage, page * ItemsPerPage;
    assert 0 <= start < end;
  }

  /** A list of at most six items is all on page 1. */
  lemma ShortListOnePage<T>(s: seq<T>)
    requires |s| <= ItemsPerPage
    ensures PageOf(s, 1) == s
  {
    PageContents(s, 1);
    assert s[..|s|] == s;
  }

  /** Pages 1 to `n`, one after another. */
  function Pages<T>(s: seq<T>, n: nat): seq<T>
  {
    if n == 0 then [] else Pages(s, n - 1) + PageOf(s, n)
  }

  /** The first `n` pages are the first `6 n` items (or all of them). */
  lemma {:induction false} PagesPrefix<T>(s: seq<T>, n: nat)
    ensures Pages(s, n) == s[..if n * ItemsPerPage < |s| then n * ItemsPerPage else |s|]
  {
    if n > 0 {
      PagesPrefix(s, n - 1);
      PageContents(s, n);
      var before := if (n - 1) * ItemsPerPage < |s| then (n - 1) * ItemsPerPage else |s|;
      var after := if n * ItemsPerPage < |s| then n * ItemsPerPage else |s|;
      assert s[..after] == s[..before] + s[before..after];
    }
  }

  /** Reading every page in turn gives back the whole list: no item is lost
      or shown twice. */
  lemma PagesCoverAll<T>(s: seq<T>)
    ensures Pages(s, CeilDiv(|s|, ItemsPerPage)) == s
  {
    PagesPrefix(s, CeilDiv(|s|, ItemsPerPage));
  }

  // ---------------------------------------------------------------------
  // Previous / Next
  // ---------------------------------------------------------------------

  /** Previous: one page back, never below page 1. */
  function PrevPage(page: int): (r: int)
    ensures r >= 1
    ensures page > 1 ==> r == page - 1
    ensures page <= 1 ==> r == 1
  {
    if page - 1 < 1 then 1 else page - 1
  }

  /** Next: one page on, never past the last page. */
  function NextPage(page: int, total: int): (r: int)
    ensures r <= total
    ensures page < total ==> r == page + 1
    ensures page >= total ==> r == total
  {
    if total < page + 1 then total else page + 1
  }

  /** From a page in `[1, total]`, Previous and Next stay in `[1, total]`;
      Previous on the first page and Next on the last change nothing. */
  lemma StepsStayInRange(page: int, total: int)
    requires 1 <= page <= total
    ensures 1 <= PrevPage(page) <= total && 1 <= NextPage(page, total) <= total
    ensures page == 1 <==> PrevPage(page) == page
    ensures page == total <==> NextPage(page, total) == page
  {
  }

  /** Previous undoes Next away from the last page, and Next undoes
      Previous away from the first. */
  lemma StepsUndo(page: int, total: int)
    requires 1 <= page <= total
    ensures page < total ==> PrevPage(NextPage(page, total)) == page
    ensures page > 1 ==> NextPage(PrevPage(page), total) == page
  {
  }
}
