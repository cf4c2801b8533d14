/**
 * The pager of the front end (`Pagination` in pagination.tsx): the range of items the current
 * page shows, and the row of page buttons `getVisiblePages` builds, where '...' stands for
 * pages left out. The component draws nothing when there is at most one page.
 */
module Pager {
  import opened Wrappers

  /** One entry of the button row: a page number or the '...' marker. */
  datatype PageItem = Page(n: int) | Gap

  /** How many pages are listed on each side of the current one. */
  const Delta: int := 2

  function Min(a: int, b: int): int { if a <= b then a else b }
  function Max(a: int, b: int): int { if a >= b then a else b }

  /** `startItem`: the position, counting from 1, of the first item on the current page. */
  function StartItem(currentPage: int, perPage: int): int {
    (currentPage - 1) * perPage + 1
  }

  /** `endItem`: the position of the last item on the current page, capped at the total. */
  function EndItem(currentPage: int, perPage: int, total: int): int {
    Min(currentPage * perPage, total)
  }

  /**
   * On a page that holds items, "showing start to end of total" names exactly the items of
   * that page: the two bounds lie within 1..total and enclose min(perPage, what is left) items.
   */
  lemma ItemRange(currentPage: int, perPage: int, total: int)
    requires perPage > 0 && currentPage >= 1 && (currentPage - 1) * perPage < total
    ensures 1 <= StartItem(currentPage, perPage) <= EndItem(currentPage, perPage, total) <= total
    ensures EndItem(currentPage, perPage, total) - StartItem(currentPage, perPage) + 1
            == Min(perPage, total - (currentPage - 1) * perPage)
  {
    assert currentPage * perPage == (currentPage - 1) * perPage + perPage;
  }

  /** The ascending integers from lo to hi; none when lo > hi. */
  function Interval(lo: int, hi: int): (r: seq<int>)
    decreases hi - lo
    ensures |r| == if lo <= hi then hi - lo + 1 else 0
    ensures forall k :: 0 <= k < |r| ==> r[k] == lo + k
  {
    if lo > hi then [] else [lo] + Interval(lo + 1, hi)
  }

  function AsPages(ns: seq<int>): (r: seq<PageItem>)
    ensures |r| == |ns|
    ensures forall k :: 0 <= k < |r| ==> r[k] == Page(ns[k])
  {
    if ns == [] then [] else [Page(ns[0])] + AsPages(ns[1..])
  }

  /** The first page in the middle run of buttons. */
  function Low(currentPage: int): int { Max(2, currentPage - Delta) }

  /** The last page in the middle run of buttons. */
  function High(currentPage: int, totalPages: int): int { Min(totalPages - 1, currentPage + Delta) }

  /** The button row: page 1, a gap if pages follow it unlisted, the middle run, then a gap and the last page. */
  function VisiblePages(currentPage: int, totalPages: int): seq<PageItem> {
    (if currentPage - Delta > 2 then [Page(1), Gap] else [Page(1)])
    + AsPages(Interval(Low(currentPage), High(currentPage, totalPages)))
    + (if currentPage + Delta < totalPages - 1 then [Gap, Page(totalPages)]
       else if totalPages > 1 then [Page(totalPages)]
       else [])
  }

  /** `getVisiblePages`: fills `range` in a loop, then surrounds it with the first page, the last page and the gaps. */
  method GetVisiblePages(currentPage: int, totalPages: int) returns (rangeWithDots: seq<PageItem>)
    ensures rangeWithDots == VisiblePages(currentPage, totalPages)
  {
    var lo, hi := Max(2, currentPage - Delta), Min(totalPages - 1, currentPage + Delta);
    var range: seq<int> := [];
    var i := lo;
    while i <= hi
      invariant lo <= i <= Max(lo, hi + 1)
      invariant |range| == i - lo
      invariant forall k :: 0 <= k < |range| ==> range[k] == lo + k
    {
      range := range + [i];
      i := i + 1;
    }
    assert |range| == |Interval(lo, hi)|;
    assert range == Interval(lo, hi);
    if currentPage - Delta > 2 {
      rangeWithDots := [Page(1), Gap];
    } else {
      rangeWithDots := [Page(1)];
    }
    rangeWithDots := rangeWithDots + AsPages(range);
    if currentPage + Delta < totalPages - 1 {
      rangeWithDots := rangeWithDots + [Gap, Page(totalPages)];
    } else if totalPages > 1 {
      rangeWithDots := rangeWithDots + [Page(totalPages)];
    }
  }

  /** What the component renders: nothing with at most one page, otherwise the button row. */
  method Render(currentPage: int, totalPages: int) returns (r: Option<seq<PageItem>>)
    ensures r.None? <==> totalPages <= 1
    ensures r.Some? ==> r.value == VisiblePages(currentPage, totalPages)
  {
    if totalPages <= 1 {
      return None;
    }
    var items := GetVisiblePages(currentPage, totalPages);
    return Some(items);
  }

  /** Where each part of the row sits: the head (page 1 and maybe a gap), the middle run from Low, then the tail. */
  lemma Layout(currentPage: int, totalPages: int) returns (h: nat, cnt: nat)
    ensures var v := VisiblePages(currentPage, totalPages); var lo := Low(currentPage);
      && h == (if currentPage - Delta > 2 then 2 else 1)
      && cnt == (if lo <= High(currentPage, totalPages) then High(currentPage, totalPages) - lo + 1 else 0)
      && |v| == h + cnt + (if currentPage + Delta < totalPages - 1 then 2 else if totalPages > 1 then 1 else 0)
      && v[0] == Page(1) && (h == 2 ==> v[1] == Gap)
      && (forall j :: h <= j < h + cnt ==> v[j] == Page(lo + j - h))
      && (currentPage + Delta < totalPages - 1 ==> v[h + cnt] == Gap && v[h + cnt + 1] == Page(totalPages))
      && (currentPage + Delta >= totalPages - 1 && totalPages > 1 ==> v[h + cnt] == Page(totalPages))
  {
    var lo, hi := Low(currentPage), High(currentPage, totalPages);
    var head := if currentPage - Delta > 2 then [Page(1), Gap] else [Page(1)];
    var m := AsPages(Interval(lo, hi));
    var tail := if currentPage + Delta < totalPages - 1 then [Gap, Page(totalPages)]
                else if totalPages > 1 then [Page(totalPages)] else [];
    var v := VisiblePages(currentPage, totalPages);
    assert v == head + m + tail;
    h, cnt := |head|, |m|;
    forall j | h <= j < h + cnt
      ensures v[j] == Page(lo + j - h)
    {
      assert v[j] == m[j - h];
    }
    if |tail| > 0 {
      assert v[h + cnt] == tail[0];
    }
    if |tail| > 1 {
      assert v[h + cnt + 1] == tail[1];
    }
  }

  /** The row starts with page 1, followed by a gap exactly when the current page is more than Delta + 2. */
  lemma StartsWithFirst(currentPage: int, totalPages: int)
    requires currentPage >= 1
    ensures var v := VisiblePages(currentPage, totalPages);
      |v| >= 1 && v[0] == Page(1) && (|v| >= 2 && v[1] == Gap <==> currentPage - Delta > 2)
  {
    var h, cnt := Layout(currentPage, totalPages);
    var v := VisiblePages(currentPage, totalPages);
    if h == 1 && |v| >= 2 {
      if cnt > 0 {
        assert v[1] == v[h];
      } else {
        assert currentPage + Delta >= totalPages - 1;
        assert v[1] == v[h + cnt];
      }
    }
  }

  /** The row ends with a gap and the last page exactly when the middle run stops before totalPages - 1. */
  lemma EndsWithLast(currentPage: int, totalPages: int)
    requires 1 <= currentPage <= totalPages && totalPages > 1
    ensures var v := VisiblePages(currentPage, totalPages);
      |v| >= 2 && v[|v| - 1] == Page(totalPages)
      && (v[|v| - 2] == Gap <==> currentPage + Delta < totalPages - 1)
  {
    var h, cnt := Layout(currentPage, totalPages);
    var v := VisiblePages(currentPage, totalPages);
    if currentPage + Delta >= totalPages - 1 {
      if cnt > 0 {
        assert v[|v| - 2] == v[h + cnt - 1];
      } else {
        assert h == 1;
      }
    }
  }

  /** Which pages have a button: the first, the last, and those within Delta of the current one. */
  lemma ListedPages(currentPage: int, totalPages: int, p: int)
    requires currentPage >= 1
    ensures Page(p) in VisiblePages(currentPage, totalPages)
        <==> p == 1 || (totalPages > 1 && p == totalPages)
             || (2 <= p <= totalPages - 1 && currentPage - Delta <= p <= currentPage + Delta)
  {
    if Page(p) in VisiblePages(currentPage, totalPages) {
      ListedOnly(currentPage, totalPages, p);
    }
    if p == 1 || (totalPages > 1 && p == totalPages)
       || (2 <= p <= totalPages - 1 && currentPage - Delta <= p <= currentPage + Delta) {
      ListedAll(currentPage, totalPages, p);
    }
  }

  /** A page with a button is the first, the last, or one within Delta of the current one. */
  lemma ListedOnly(currentPage: int, totalPages: int, p: int)
    requires currentPage >= 1 && Page(p) in VisiblePages(currentPage, totalPages)
    ensures p == 1 || (totalPages > 1 && p == totalPages)
            || (2 <= p <= totalPages - 1 && currentPage - Delta <= p <= currentPage + Delta)
  {
    var h, cnt := Layout(currentPage, totalPages);
    var v := VisiblePages(currentPage, totalPages);
    var lo := Low(currentPage);
    var i :| 0 <= i < |v| && v[i] == Page(p);
    if h <= i < h + cnt {
      assert v[i] == Page(lo + i - h);
    }
  }

  /** The first, the last and every page within Delta of the current one have a button. */
  lemma ListedAll(currentPage: int, totalPages: int, p: int)
    requires currentPage >= 1
    requires p == 1 || (totalPages > 1 && p == totalPages)
             || (2 <= p <= totalPages - 1 && currentPage - Delta <= p <= currentPage + Delta)
    ensures Page(p) in VisiblePages(currentPage, totalPages)
  {
    var h, cnt := Layout(currentPage, totalPages);
    var v := VisiblePages(currentPage, totalPages);
    var lo := Low(currentPage);
    if p == 1 {
      assert v[0] == Page(p);
    } else if 2 <= p <= totalPages - 1 && currentPage - Delta <= p <= currentPage + Delta {
      assert v[h + p - lo] == Page(p);
    } else if currentPage + Delta < totalPages - 1 {
      assert v[h + cnt + 1] == Page(p);
    } else {
      assert v[h + cnt] == Page(p);
    }
  }

  /** Page numbers strictly increase along the row. */
  lemma Increasing(currentPage: int, totalPages: int)
    requires currentPage >= 1
    ensures var v := VisiblePages(currentPage, totalPages);
      forall i, j :: 0 <= i < j < |v| && v[i].Page? && v[j].Page? ==> v[i].n < v[j].n
  {
    var h, cnt := Layout(currentPage, totalPages);
    var v := VisiblePages(currentPage, totalPages);
    var lo := Low(currentPage);
    forall i, j | 0 <= i < j < |v| && v[i].Page? && v[j].Page?
      ensures v[i].n < v[j].n
    {
      if h <= i < h + cnt {
        assert v[i] == Page(lo + i - h);
      }
      if h <= j < h + cnt {
        assert v[j] == Page(lo + j - h);
      }
    }
  }

  /** A current page within 1..totalPages has its own button. */
  lemma IncludesCurrent(currentPage: int, totalPages: int)
    requires 1 <= currentPage <= totalPages
    ensures Page(currentPage) in VisiblePages(currentPage, totalPages)
  {
    ListedPages(currentPage, totalPages, currentPage);
  }

  /** For a current page within 1..totalPages, two neighbouring page buttons are consecutive pages. */
  lemma Steps(currentPage: int, totalPages: int)
    requires 1 <= currentPage <= totalPages
    ensures var v := VisiblePages(currentPage, totalPages);
      forall i :: 0 <= i < |v| - 1 && v[i].Page? && v[i + 1].Page? ==> v[i + 1].n == v[i].n + 1
  {
    var h, cnt := Layout(currentPage, totalPages);
    var v := VisiblePages(currentPage, totalPages);
    var lo, hi := Low(currentPage), High(currentPage, totalPages);
    forall i | 0 <= i < |v| - 1 && v[i].Page? && v[i + 1].Page?
      ensures v[i + 1].n == v[i].n + 1
    {
      if i < h {
        if cnt > 0 {
          assert v[i + 1] == v[h];
        } else {
          assert totalPages <= 2;
        }
      } else if i + 1 < h + cnt {
        assert v[i] == Page(lo + i - h) && v[i + 1] == Page(lo + i + 1 - h);
      } else {
        assert v[i] == Page(lo + i - h) && lo + cnt - 1 == hi;
      }
    }
  }

  /**
   * For a current page within 1..totalPages the row neither starts nor ends with a gap, and
   * each gap sits between two pages with at least one page omitted between them.
   */
  lemma Gaps(currentPage: int, totalPages: int)
    requires 1 <= currentPage <= totalPages
    ensures var v := VisiblePages(currentPage, totalPages);
      && v[0].Page? && v[|v| - 1].Page?
      && (forall i :: 0 < i < |v| - 1 && v[i].Gap? ==> v[i - 1].Page? && v[i + 1].Page? && v[i + 1].n > v[i - 1].n + 1)
  {
    var h, cnt := Layout(currentPage, totalPages);
    var v := VisiblePages(currentPage, totalPages);
    var lo, hi := Low(currentPage), High(currentPage, totalPages);
    assert h == 2 ==> cnt > 0;
    assert currentPage + Delta < totalPages - 1 ==> cnt > 0 && lo + cnt - 1 == hi;
    forall i | 0 < i < |v| - 1 && v[i].Gap?
      ensures v[i - 1].Page? && v[i + 1].Page? && v[i + 1].n > v[i - 1].n + 1
    {
      if i < h {
        assert v[i + 1] == Page(lo + (i + 1) - h);
      } else {
        assert i == h + cnt && v[i - 1] == Page(lo + (i - 1) - h);
      }
    }
  }
}
