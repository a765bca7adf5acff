/**
 * Skip/limit paging: the slice a page request selects from an ordered
 * result and how the pages of one page size cover that result.
 */
module Paging {
  import opened Seqs
  import Numbers

  /** What `skip(skip).limit(limit)` returns from an ordered result. */
  function Window<T>(xs: seq<T>, skip: nat, limit: nat): (r: seq<T>)
    ensures |r| == Min(limit, Max(0, |xs| - skip))
  {
    xs[Min(skip, |xs|)..Min(skip + limit, |xs|)]
  }

  /** The window's `i`-th record is the record `skip + i` places into the result. */
  lemma WindowAt<T>(xs: seq<T>, skip: nat, limit: nat, i: int)
    requires 0 <= i < |Window(xs, skip, limit)|
    ensures skip + i < |xs| && Window(xs, skip, limit)[i] == xs[skip + i]
  {
  }

  /** Page `p` (1-based) of size `s`: the records at positions `[(p-1)*s, p*s)`. */
  function Page<T>(xs: seq<T>, p: int, s: int): seq<T>
    requires p >= 1 && s >= 1
  {
    Window(xs, (p - 1) * s, s)
  }

  /** Pages 1 to `k` one after another. */
  function PagesUpTo<T>(xs: seq<T>, s: int, k: nat): seq<T>
    requires s >= 1
  {
    if k == 0 then [] else PagesUpTo(xs, s, k - 1) + Page(xs, k, s)
  }

  /** The first `k` pages are exactly the first `k*s` records. */
  lemma {:induction false} PagesUpToPrefix<T>(xs: seq<T>, s: int, k: nat)
    requires s >= 1
    ensures PagesUpTo(xs, s, k) == xs[..Min(k * s, |xs|)]
  {
    if k > 0 {
      var a := (k - 1) * s;
      PagesUpToPrefix(xs, s, k - 1);
      PagesStep(xs, s, k, a);
      var lo, hi := Min(a, |xs|), Min(a + s, |xs|);
      MulStep(k, s);
      PrefixConcat(xs, lo, hi);
    }
  }

  lemma MulStep(k: int, s: int)
    ensures k * s == (k - 1) * s + s
  {
  }

  /** Adding page `k` appends the slice starting at offset `a = (k-1)*s`. */
  lemma PagesStep<T>(xs: seq<T>, s: int, k: nat, a: nat)
    requires s >= 1 && k >= 1 && a == (k - 1) * s
    ensures PagesUpTo(xs, s, k) == PagesUpTo(xs, s, k - 1) + xs[Min(a, |xs|)..Min(a + s, |xs|)]
  {
    PageSlice(xs, a, s);
  }

  /** The page starting at offset `a` is the slice between the two clipped offsets. */
  lemma PageSlice<T>(xs: seq<T>, a: nat, s: nat)
    ensures Window(xs, a, s) == xs[Min(a, |xs|)..Min(a + s, |xs|)]
  {
  }

  lemma PrefixConcat<T>(xs: seq<T>, lo: int, hi: int)
    requires 0 <= lo <= hi <= |xs|
    ensures xs[..lo] + xs[lo..hi] == xs[..hi]
  {
  }

  /**
   * Pages 1 to `ceil(n/s)` partition the result: concatenated they give
   * back every record once, in order.
   */
  lemma PagesPartition<T>(xs: seq<T>, s: int)
    requires s >= 1
    ensures PagesUpTo(xs, s, Numbers.CeilDiv(|xs|, s)) == xs
  {
    var k := Numbers.CeilDiv(|xs|, s);
    PagesUpToPrefix(xs, s, k);
  }

  /** Every page within the page count holds at least one record. */
  lemma PageWithinCountNonEmpty<T>(xs: seq<T>, p: int, s: int)
    requires s >= 1 && 1 <= p <= Numbers.CeilDiv(|xs|, s)
    ensures |Page(xs, p, s)| > 0
  {
    var k := Numbers.CeilDiv(|xs|, s);
    assert (p - 1) * s <= (k - 1) * s;
  }

  /** A page past the page count is empty. */
  lemma PagePastCountEmpty<T>(xs: seq<T>, p: int, s: int)
    requires s >= 1 && p > Numbers.CeilDiv(|xs|, s)
    ensures Page(xs, p, s) == []
  {
    var k := Numbers.CeilDiv(|xs|, s);
    assert (p - 1) * s >= k * s;
  }
}
