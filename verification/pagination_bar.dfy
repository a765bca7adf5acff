/**
 * The pagination bar: the first and last page, a window of two pages on
 * each side of the current one, an ellipsis wherever pages are left out,
 * and previous/next buttons. Nothing is shown for a single page.
 */
module PaginationBar {
  import opened Wrappers
  import opened Seqs

  /** How many pages on each side of the current page are listed. */
  const Delta: int := 2

  datatype PageItem = Number(n: int) | Dots

  datatype Button = Button(target: int, disabled: bool)
  datatype Bar = Bar(prev: Button, items: seq<PageItem>, next: Button)

  /** The page buttons `lo, lo + 1, ..., hi`; empty when `lo > hi`. */
  function RangeItems(lo: int, hi: int): (r: seq<PageItem>)
    ensures |r| == Max(0, hi - lo + 1)
    ensures forall i :: 0 <= i < |r| ==> r[i] == Number(lo + i)
    decreases hi - lo
  {
    if lo > hi then [] else [Number(lo)] + RangeItems(lo + 1, hi)
  }

  function WindowLo(cur: int): int {
    Max(2, cur - Delta)
  }

  function WindowHi(cur: int, total: int): int {
    Min(total - 1, cur + Delta)
  }

  function Lead(cur: int): seq<PageItem> {
    if cur - Delta > 2 then [Number(1), Dots] else [Number(1)]
  }

  function Trail(cur: int, total: int): seq<PageItem> {
    if cur + Delta < total - 1 then [Dots, Number(total)] else [Number(total)]
  }

  /** `getPageNumbers`: the entries of the bar between the two arrows. */
  function PageNumbers(cur: int, total: int): (r: seq<PageItem>)
    ensures |r| >= 2 && r[0] == Number(1) && r[|r| - 1] == Number(total)
  {
    Lead(cur) + RangeItems(WindowLo(cur), WindowHi(cur, total)) + Trail(cur, total)
  }

  /** The whole bar, or nothing when there is at most one page. */
  function Render(cur: int, total: int): (r: Option<Bar>)
    ensures r.None? <==> total <= 1
    ensures r.Some? ==> r.value.items == PageNumbers(cur, total)
  {
    if total <= 1 then None
    else Some(Bar(Button(cur - 1, cur == 1), PageNumbers(cur, total), Button(cur + 1, cur == total)))
  }

  // ------------------------------------------------------------- facts

  /** The situation the bar is drawn in: a current page among at least two. */
  predicate Shown(cur: int, total: int) {
    total >= 2 && 1 <= cur <= total
  }

  /** Which part of the bar index `i` falls in, and what it holds there. */
  lemma ItemAt(cur: int, total: int, i: int)
    requires 0 <= i < |PageNumbers(cur, total)|
    ensures var lead, mid := Lead(cur), RangeItems(WindowLo(cur), WindowHi(cur, total));
      var r := PageNumbers(cur, total);
      && (i < |lead| ==> r[i] == lead[i])
      && (|lead| <= i < |lead| + |mid| ==> r[i] == Number(WindowLo(cur) + i - |lead|))
      && (|lead| + |mid| <= i ==> r[i] == Trail(cur, total)[i - |lead| - |mid|])
  {
  }

  /** In a shown bar the window sits strictly between the first and the last page. */
  lemma WindowInside(cur: int, total: int)
    requires Shown(cur, total)
    ensures 1 < WindowLo(cur) && WindowHi(cur, total) < total
    ensures WindowLo(cur) <= cur + Delta && cur - Delta <= WindowHi(cur, total)
  {
  }

  /**
   * A leading ellipsis appears exactly when the current page is more than
   * four pages in, a trailing one exactly when more than three pages
   * follow it.
   */
  lemma PageNumbersDots(cur: int, total: int)
    requires Shown(cur, total)
    ensures var r := PageNumbers(cur, total);
      && (r[1] == Dots <==> cur - Delta > 2)
      && (r[|r| - 2] == Dots <==> cur + Delta < total - 1)
  {
    var r := PageNumbers(cur, total);
    ItemAt(cur, total, 1);
    ItemAt(cur, total, |r| - 2);
  }

  /** Every listed page exists, and the listed pages strictly increase. */
  lemma PageNumbersIncreasing(cur: int, total: int)
    requires Shown(cur, total)
    ensures var r := PageNumbers(cur, total);
      && (forall i :: 0 <= i < |r| && r[i].Number? ==> 1 <= r[i].n <= total)
      && (forall i, j :: 0 <= i < j < |r| && r[i].Number? && r[j].Number? ==> r[i].n < r[j].n)
  {
    var r := PageNumbers(cur, total);
    WindowInside(cur, total);
    forall i | 0 <= i < |r| && r[i].Number? ensures 1 <= r[i].n <= total {
      ItemAt(cur, total, i);
    }
    forall i, j | 0 <= i < j < |r| && r[i].Number? && r[j].Number? ensures r[i].n < r[j].n {
      ItemAt(cur, total, i);
      ItemAt(cur, total, j);
    }
  }

  /** Every page within two of the current page is listed. */
  lemma PageNumbersNearby(cur: int, total: int, p: int)
    requires Shown(cur, total) && 1 <= p <= total && cur - Delta <= p <= cur + Delta
    ensures Number(p) in PageNumbers(cur, total)
  {
    if 1 < p < total {
      WindowListed(cur, total, p);
    }
  }

  /** Every page of the window is listed. */
  lemma WindowListed(cur: int, total: int, p: int)
    requires WindowLo(cur) <= p <= WindowHi(cur, total)
    ensures Number(p) in PageNumbers(cur, total)
  {
    var k := |Lead(cur)| + p - WindowLo(cur);
    ItemAt(cur, total, k);
    assert PageNumbers(cur, total)[k] == Number(p);
  }

  /** An ellipsis sits between two listed pages and stands for at least one page. */
  lemma PageNumbersDotsHide(cur: int, total: int, i: int)
    requires Shown(cur, total) && 0 <= i < |PageNumbers(cur, total)| && PageNumbers(cur, total)[i] == Dots
    ensures var r := PageNumbers(cur, total);
      && 0 < i < |r| - 1 && r[i - 1].Number? && r[i + 1].Number?
      && r[i + 1].n - r[i - 1].n >= 2
  {
    var r := PageNumbers(cur, total);
    WindowInside(cur, total);
    ItemAt(cur, total, i);
    if 0 < i {
      ItemAt(cur, total, i - 1);
    }
    if i < |r| - 1 {
      ItemAt(cur, total, i + 1);
    }
  }

  /** Page `p` is left out at the ellipsis at index `i`. */
  ghost predicate HiddenAt(r: seq<PageItem>, i: int, p: int) {
    && 0 < i < |r| - 1 && r[i] == Dots && r[i - 1].Number? && r[i + 1].Number?
    && r[i - 1].n < p < r[i + 1].n
  }

  /** A page that is not listed is covered by an ellipsis. */
  lemma PageNumbersOmitted(cur: int, total: int, p: int)
    requires Shown(cur, total) && 1 <= p <= total && Number(p) !in PageNumbers(cur, total)
    ensures exists i :: HiddenAt(PageNumbers(cur, total), i, p)
  {
    var r := PageNumbers(cur, total);
    var lo, hi := WindowLo(cur), WindowHi(cur, total);
    WindowInside(cur, total);
    assert r[0] == Number(1) && r[|r| - 1] == Number(total);
    if lo <= p <= hi {
      WindowListed(cur, total, p);
      assert false;
    } else if p < lo {
      ItemAt(cur, total, 1);
      ItemAt(cur, total, 2);
      assert HiddenAt(r, 1, p);
    } else {
      var k := |r| - 2;
      ItemAt(cur, total, k);
      ItemAt(cur, total, k - 1);
      assert HiddenAt(r, k, p);
    }
  }

  /** The current page is listed exactly once, so exactly one button is marked active. */
  lemma CurrentListedOnce(cur: int, total: int)
    requires Shown(cur, total)
    ensures var r := PageNumbers(cur, total);
      && Number(cur) in r
      && forall i, j :: 0 <= i < j < |r| && r[i] == Number(cur) ==> r[j] != Number(cur)
  {
    PageNumbersNearby(cur, total, cur);
    PageNumbersIncreasing(cur, total);
  }

  /** With one page the list would name page 1 twice: why the bar is hidden then. */
  lemma SinglePageList()
    ensures PageNumbers(1, 1) == [Number(1), Number(1)]
  {
    assert RangeItems(WindowLo(1), WindowHi(1, 1)) == [];
  }

  /**
   * Previous asks for the page before and is disabled exactly on the first
   * page, next asks for the page after and is disabled exactly on the last;
   * an enabled arrow never leaves the pages that exist.
   */
  lemma ArrowsStayInRange(cur: int, total: int)
    requires Shown(cur, total)
    ensures Render(cur, total).Some?
    ensures var b := Render(cur, total).value;
      && (b.prev.disabled <==> cur == 1) && b.prev.target == cur - 1
      && (b.next.disabled <==> cur == total) && b.next.target == cur + 1
      && (!b.prev.disabled ==> 1 <= b.prev.target <= total)
      && (!b.next.disabled ==> 1 <= b.next.target <= total)
  {
  }
}
