/**
 * Pagination of the filtered list: the page slice and page count, and the First,
 * Previous, Next and Last controls. The page number is 1-based; the page size is one
 * of the options of the page-size selector.
 */
module Paging {

  /** The options the page-size selector offers; the table starts at 10. */
  const PageSizes: set<nat> := {5, 10, 20}
  const DefaultPageSize: nat := 10

  // ---------------------------------------------------------------------------
  // Array.prototype.slice
  // ---------------------------------------------------------------------------

  /** How `slice` turns one of its arguments into a position: negative counts from the end. */
  function SliceIndex(k: int, len: nat): (r: nat)
    ensures r <= len
    ensures 0 <= k ==> r == if k <= len then k else len
    ensures k < 0 ==> r == if len + k >= 0 then len + k else 0
  {
    if k < 0 then (if len + k < 0 then 0 else len + k)
    else if k > len then len
    else k
  }

  /** `s.slice(start, end)`: empty whenever the resolved end is not past the resolved start. */
  function JsSlice<T>(s: seq<T>, start: int, end: int): (r: seq<T>)
    ensures |r| <= |s|
    ensures var from, to := SliceIndex(start, |s|), SliceIndex(end, |s|);
      |r| == (if from < to then to - from else 0) &&
      forall i :: 0 <= i < |r| ==> r[i] == s[from + i]
  {
    var from := SliceIndex(start, |s|);
    var to := SliceIndex(end, |s|);
    if from < to then s[from..to] else []
  }

  function Min(a: int, b: int): int
  {
    if a <= b then a else b
  }

  // ---------------------------------------------------------------------------
  // Page slice and page count
  // ---------------------------------------------------------------------------

  /**
   * `a * b`, by repeated addition (`MulIsProduct`). Page offsets are written with it so
   * that the proofs about slices unfold them one page at a time.
   */
  function Mul(a: nat, b: nat): nat
  {
    if a == 0 then 0 else Mul(a - 1, b) + b
  }

  lemma {:induction false} MulIsProduct(a: nat, b: nat)
    ensures Mul(a, b) == a * b
  {
    if a > 0 {
      MulIsProduct(a - 1, b);
    }
  }

  lemma {:induction false} MulMonotone(a: nat, b: nat, size: nat)
    requires a <= b
    ensures Mul(a, size) <= Mul(b, size)
    decreases b
  {
    if a < b {
      MulMonotone(a, b - 1, size);
    }
  }

  /**
   * The visible page: `indexOfLastTask = page * size`, `indexOfFirstTask =
   * indexOfLastTask - size`, and the slice between them.
   */
  function Page<T>(s: seq<T>, page: nat, size: nat): seq<T>
  {
    var last := Mul(page, size);
    JsSlice(s, last - size, last)
  }

  /**
   * `Math.ceil(len / size)`, counted one page at a time: no floor of 1, so an empty
   * list has 0 pages. The contract is the definition of the ceiling.
   */
  function TotalPages(len: nat, size: nat): (t: nat)
    requires size > 0
    ensures len <= Mul(t, size)
    ensures t >= 1 ==> Mul(t - 1, size) < len
    ensures t == 0 <==> len == 0
    decreases len
  {
    if len == 0 then 0
    else if len <= size then 1
    else TotalPages(len - size, size) + 1
  }

  /** The page count is the ceiling of len / size, in ordinary arithmetic. */
  lemma TotalPagesIsCeiling(len: nat, size: nat)
    requires size > 0
    ensures (TotalPages(len, size) - 1) * size < len <= TotalPages(len, size) * size
  {
    var t := TotalPages(len, size);
    MulIsProduct(t, size);
    if t >= 1 {
      MulIsProduct(t - 1, size);
    }
  }

  // Facts about the page bounds, kept apart from the sequence reasoning.

  /** A page past the last starts at or after the end of the list. */
  lemma PastLastPageBound(len: nat, page: nat, size: nat)
    requires size > 0
    requires page > TotalPages(len, size)
    ensures Mul(page - 1, size) >= len
  {
    MulMonotone(TotalPages(len, size), page - 1, size);
  }

  /** A page before the last ends before the end of the list. */
  lemma FullPageBound(len: nat, page: nat, size: nat)
    requires size > 0
    requires 1 <= page < TotalPages(len, size)
    ensures Mul(page - 1, size) + size < len
  {
    MulMonotone(page, TotalPages(len, size) - 1, size);
  }

  // The window of `size` positions starting at lo, cut to the list.

  function Window<T>(s: seq<T>, lo: nat, size: nat): seq<T>
  {
    s[Min(lo, |s|)..Min(lo + size, |s|)]
  }

  lemma WindowFacts<T>(s: seq<T>, lo: nat, size: nat)
    ensures |Window(s, lo, size)| <= size
    ensures lo >= |s| ==> Window(s, lo, size) == []
    ensures lo + size <= |s| ==> |Window(s, lo, size)| == size
    ensures lo < |s| <= lo + size ==> |Window(s, lo, size)| == |s| - lo
    ensures forall i :: 0 <= i < |Window(s, lo, size)| ==> lo + i < |s| && Window(s, lo, size)[i] == s[lo + i]
  {
  }

  lemma PrefixThenWindow<T>(s: seq<T>, lo: nat, size: nat)
    ensures s[..Min(lo, |s|)] + Window(s, lo, size) == s[..Min(lo + size, |s|)]
  {
  }

  /**
   * For a page of 1 or more, the visible page is the window of `size` positions that
   * starts at (page-1)*size, cut to the list.
   */
  lemma PageWindow<T>(s: seq<T>, page: nat, size: nat)
    requires page >= 1
    ensures Page(s, page, size) == Window(s, Mul(page - 1, size), size)
  {
    var lo := Mul(page - 1, size);
    assert Page(s, page, size) == JsSlice(s, lo, lo + size);
  }

  /** A page never holds more than `size` tasks. */
  lemma PageLength<T>(s: seq<T>, page: nat, size: nat)
    ensures |Page(s, page, size)| <= size
  {
    if page >= 1 {
      PageWindow(s, page, size);
      WindowFacts(s, Mul(page - 1, size), size);
    }
  }

  /** Page 0 and every page past the last are empty. */
  lemma PageOutOfRange<T>(s: seq<T>, page: nat, size: nat)
    requires size > 0
    requires page == 0 || page > TotalPages(|s|, size)
    ensures Page(s, page, size) == []
  {
    if page >= 1 {
      PastLastPageBound(|s|, page, size);
      PageWindow(s, page, size);
      WindowFacts(s, Mul(page - 1, size), size);
    }
  }

  /** Every page before the last is full. */
  lemma PageFull<T>(s: seq<T>, page: nat, size: nat)
    requires size > 0
    requires 1 <= page < TotalPages(|s|, size)
    ensures |Page(s, page, size)| == size
  {
    FullPageBound(|s|, page, size);
    PageWindow(s, page, size);
    WindowFacts(s, Mul(page - 1, size), size);
  }

  /** The last page is non-empty and holds what is left over. */
  lemma PageLast<T>(s: seq<T>, size: nat)
    requires size > 0 && s != []
    ensures TotalPages(|s|, size) >= 1
    ensures |Page(s, TotalPages(|s|, size), size)| == |s| - (TotalPages(|s|, size) - 1) * size > 0
  {
    var t := TotalPages(|s|, size);
    var lo := Mul(t - 1, size);
    PageWindow(s, t, size);
    WindowFacts(s, lo, size);
    assert |Page(s, t, size)| == |s| - lo > 0;
    MulIsProduct(t - 1, size);
  }

  /** The i-th task on a page is the task at position (page-1)*size + i of the list. */
  lemma PageAt<T>(s: seq<T>, page: nat, size: nat, i: nat)
    requires page >= 1 && i < |Page(s, page, size)|
    ensures (page - 1) * size + i < |s|
    ensures Page(s, page, size)[i] == s[(page - 1) * size + i]
  {
    MulIsProduct(page - 1, size);
    PageWindow(s, page, size);
    WindowFacts(s, Mul(page - 1, size), size);
  }

  /** Every task on a page is a task of the list. */
  lemma PageElementsInList<T>(s: seq<T>, page: nat, size: nat)
    ensures forall i :: 0 <= i < |Page(s, page, size)| ==> Page(s, page, size)[i] in s
  {
    if page >= 1 {
      PageWindow(s, page, size);
      WindowFacts(s, Mul(page - 1, size), size);
    }
  }

  /** What the table relies on about the page it shows. */
  lemma PageFacts<T>(s: seq<T>, page: nat, size: nat)
    requires size > 0
    ensures |Page(s, page, size)| <= size
    ensures page == 0 || page > TotalPages(|s|, size) ==> Page(s, page, size) == []
    ensures 1 <= page < TotalPages(|s|, size) ==> |Page(s, page, size)| == size
    ensures forall i :: 0 <= i < |Page(s, page, size)| ==> Page(s, page, size)[i] in s
  {
    PageLength(s, page, size);
    if page == 0 || page > TotalPages(|s|, size) {
      PageOutOfRange(s, page, size);
    }
    if 1 <= page < TotalPages(|s|, size) {
      PageFull(s, page, size);
    }
    PageElementsInList(s, page, size);
  }

  /** Pages 1 .. count, one after the other. */
  function Pages<T>(s: seq<T>, size: nat, count: nat): seq<T>
  {
    if count == 0 then [] else Pages(s, size, count - 1) + Page(s, count, size)
  }

  /** PagesPrefix with the offset as repeated addition, which the induction steps through. */
  lemma {:induction false} PagesPrefixMul<T>(s: seq<T>, size: nat, count: nat)
    ensures Pages(s, size, count) == s[..Min(Mul(count, size), |s|)]
  {
    if count > 0 {
      var lo := Mul(count - 1, size);
      PagesPrefixMul(s, size, count - 1);
      PageWindow(s, count, size);
      PrefixThenWindow(s, lo, size);
    }
  }

  /** Pages 1 .. count together are the first count*size tasks (or all of them). */
  lemma PagesPrefix<T>(s: seq<T>, size: nat, count: nat)
    ensures Pages(s, size, count) == s[..Min(count * size, |s|)]
  {
    PagesPrefixMul(s, size, count);
    MulIsProduct(count, size);
  }

  /** Reading pages 1 .. totalPages in order gives back the whole filtered list. */
  lemma PagesCoverList<T>(s: seq<T>, size: nat)
    requires size > 0
    ensures Pages(s, size, TotalPages(|s|, size)) == s
  {
    PagesPrefixMul(s, size, TotalPages(|s|, size));
  }

  // ---------------------------------------------------------------------------
  // Navigation
  // ---------------------------------------------------------------------------

  /** First: `setCurrentPage(1)` */
  function First(): nat
  {
    1
  }

  /** Previous: `Math.max(prev - 1, 1)` */
  function Previous(page: nat): (r: nat)
    ensures r >= 1
    ensures page >= 2 ==> r + 1 == page
    ensures page <= 1 ==> r == 1
  {
    if page - 1 >= 1 then page - 1 else 1
  }

  /** Next: `Math.min(prev + 1, totalPages)` */
  function Next(page: nat, totalPages: nat): (r: nat)
    ensures r <= totalPages
    ensures page < totalPages ==> r == page + 1
    ensures page >= totalPages ==> r == totalPages
  {
    if page + 1 <= totalPages then page + 1 else totalPages
  }

  /** Last: `setCurrentPage(totalPages)` */
  function Last(totalPages: nat): nat
  {
    totalPages
  }

  /** Previous and Next keep a page that is in range, in range. */
  lemma NavigationStaysInRange(page: nat, totalPages: nat)
    requires 1 <= page <= totalPages
    ensures 1 <= Previous(page) <= totalPages
    ensures 1 <= Next(page, totalPages) <= totalPages
  {
  }

  /** On an empty list (no pages) Next and Last both move page 1 to page 0. */
  lemma EmptyListNavigatesToPageZero(size: nat)
    requires size > 0
    ensures Next(First(), TotalPages(0, size)) == 0
    ensures Last(TotalPages(0, size)) == 0
  {
  }

  /** Previous and Next each undo the other away from the ends. */
  lemma PreviousUndoesNext(page: nat, totalPages: nat)
    requires 1 <= page < totalPages
    ensures Previous(Next(page, totalPages)) == page
  {
  }

  /** Pressing Previous k times from page p lands on max(p-k, 1). */
  function PreviousTimes(page: nat, k: nat): nat
  {
    if k == 0 then page else Previous(PreviousTimes(page, k - 1))
  }

  /** Pressing Next k times from page p lands on min(p+k, totalPages). */
  function NextTimes(page: nat, totalPages: nat, k: nat): nat
  {
    if k == 0 then page else Next(NextTimes(page, totalPages, k - 1), totalPages)
  }

  lemma {:induction false} PreviousTimesClamps(page: nat, k: nat)
    requires page >= 1
    ensures PreviousTimes(page, k) == if page - k >= 1 then page - k else 1
  {
    if k > 0 { PreviousTimesClamps(page, k - 1); }
  }

  lemma {:induction false} NextTimesClamps(page: nat, totalPages: nat, k: nat)
    requires page <= totalPages
    ensures NextTimes(page, totalPages, k) == Min(page + k, totalPages)
  {
    if k > 0 { NextTimesClamps(page, totalPages, k - 1); }
  }

  /** First and Last settle: Previous after First, and Next after Last, stay put. */
  lemma FirstAndLastSettle(totalPages: nat)
    ensures Previous(First()) == First()
    ensures Next(Last(totalPages), totalPages) == Last(totalPages)
  {
  }

  /** Twelve tasks at ten per page: two pages, the first ten and then the last two. */
  lemma TwelveTasksTenPerPage<T>(s: seq<T>)
    requires |s| == 12
    ensures TotalPages(|s|, 10) == 2
    ensures Page(s, 1, 10) == s[..10]
    ensures Next(1, TotalPages(|s|, 10)) == 2 && Page(s, 2, 10) == s[10..]
  {
    PageWindow(s, 1, 10);
    PageWindow(s, 2, 10);
  }

  /** A control is disabled exactly in the states that are fixed points of its handler. */
  lemma DisabledControlsAreNoOps(page: nat, totalPages: nat)
    ensures First() == page <==> page == 1
    ensures Previous(page) == page <==> page == 1
    ensures Next(page, totalPages) == page <==> page == totalPages
    ensures Last(totalPages) == page <==> page == totalPages
  {
  }
}
