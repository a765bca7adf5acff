/**
 * The three sort keys the engine accepts and a sort of sale sequences by
 * one of them. Only the order of keys is promised: records with equal keys
 * may come out in any order, as the database promises nothing for ties.
 */
module Ordering {
  import opened SaleRecord
  import Text

  datatype SortField = ByDate | ByQuantity | ByCustomerName
  datatype Direction = Ascending | Descending
  datatype SortSpec = SortSpec(field: SortField, direction: Direction)

  /** `a`'s key is at most `b`'s key: numbers numerically, names by code point. */
  predicate KeyLe(f: SortField, a: Sale, b: Sale) {
    match f
    case ByDate => a.date <= b.date
    case ByQuantity => a.quantity <= b.quantity
    case ByCustomerName => Text.StrLe(a.customerName, b.customerName)
  }

  /** `a` may be listed before `b`: key order, flipped for a descending sort. */
  predicate Precedes(spec: SortSpec, a: Sale, b: Sale) {
    if spec.direction == Ascending then KeyLe(spec.field, a, b) else KeyLe(spec.field, b, a)
  }

  lemma PrecedesTotal(spec: SortSpec, a: Sale, b: Sale)
    ensures Precedes(spec, a, b) || Precedes(spec, b, a)
  {
    if spec.field == ByCustomerName {
      Text.StrLeTotal(a.customerName, b.customerName);
    }
  }

  lemma PrecedesTransitive(spec: SortSpec, a: Sale, b: Sale, c: Sale)
    requires Precedes(spec, a, b) && Precedes(spec, b, c)
    ensures Precedes(spec, a, c)
  {
    if spec.field == ByCustomerName {
      if spec.direction == Ascending {
        Text.StrLeTransitive(a.customerName, b.customerName, c.customerName);
      } else {
        Text.StrLeTransitive(c.customerName, b.customerName, a.customerName);
      }
    }
  }

  /** Every record may be listed before every later one. */
  ghost predicate Sorted(spec: SortSpec, xs: seq<Sale>) {
    forall i, j :: 0 <= i < j < |xs| ==> Precedes(spec, xs[i], xs[j])
  }

  /** Places `x` before the first record it may precede. */
  function Insert(spec: SortSpec, x: Sale, xs: seq<Sale>): (r: seq<Sale>)
    ensures multiset(r) == multiset(xs) + multiset{x}
    ensures |r| == |xs| + 1
    decreases |xs|
  {
    if |xs| == 0 then [x]
    else if Precedes(spec, x, xs[0]) then [x] + xs
    else
      assert xs == [xs[0]] + xs[1..];
      [xs[0]] + Insert(spec, x, xs[1..])
  }

  /** Inserting into a sorted sequence keeps it sorted. */
  lemma {:induction false} InsertSorted(spec: SortSpec, x: Sale, xs: seq<Sale>)
    requires Sorted(spec, xs)
    ensures Sorted(spec, Insert(spec, x, xs))
    decreases |xs|
  {
    if |xs| == 0 {
    } else if Precedes(spec, x, xs[0]) {
      forall y | y in xs ensures Precedes(spec, x, y) {
        var k :| 0 <= k < |xs| && xs[k] == y;
        if k > 0 {
          PrecedesTransitive(spec, x, xs[0], y);
        }
      }
      SortedCons(spec, x, xs);
    } else {
      var rest := Insert(spec, x, xs[1..]);
      SortedSlice(spec, xs, 1, |xs|);
      InsertSorted(spec, x, xs[1..]);
      PrecedesTotal(spec, x, xs[0]);
      forall y | y in rest ensures Precedes(spec, xs[0], y) {
        HeadPrecedesInserted(spec, x, xs, y);
      }
      SortedCons(spec, xs[0], rest);
    }
  }

  /** A record that may precede every record of a sorted sequence can head it. */
  lemma SortedCons(spec: SortSpec, h: Sale, ys: seq<Sale>)
    requires Sorted(spec, ys)
    requires forall y :: y in ys ==> Precedes(spec, h, y)
    ensures Sorted(spec, [h] + ys)
  {
    var r := [h] + ys;
    forall i, j | 0 <= i < j < |r| ensures Precedes(spec, r[i], r[j]) {
      assert r[j] == ys[j - 1];
      if i > 0 {
        assert r[i] == ys[i - 1];
      }
    }
  }

  /** The head of a sorted sequence may precede everything in its tail with `x` inserted. */
  lemma HeadPrecedesInserted(spec: SortSpec, x: Sale, xs: seq<Sale>, y: Sale)
    requires Sorted(spec, xs) && |xs| > 0 && Precedes(spec, xs[0], x)
    requires y in Insert(spec, x, xs[1..])
    ensures Precedes(spec, xs[0], y)
  {
    assert y in multiset(Insert(spec, x, xs[1..]));
    if y != x {
      assert y in multiset(xs[1..]);
      var k :| 0 <= k < |xs[1..]| && xs[1..][k] == y;
      assert xs[k + 1] == y;
    }
  }

  /** Insertion sort. */
  function SortBy(spec: SortSpec, xs: seq<Sale>): (r: seq<Sale>)
    ensures multiset(r) == multiset(xs)
    ensures |r| == |xs|
  {
    if |xs| == 0 then []
    else
      var init, last := xs[..|xs| - 1], xs[|xs| - 1];
      assert xs == init + [last];
      assert multiset(xs) == multiset(init) + multiset{last};
      Insert(spec, last, SortBy(spec, init))
  }

  /** The sort's output is sorted. */
  lemma {:induction false} SortBySorted(spec: SortSpec, xs: seq<Sale>)
    ensures Sorted(spec, SortBy(spec, xs))
  {
    if |xs| > 0 {
      SortBySorted(spec, xs[..|xs| - 1]);
      InsertSorted(spec, xs[|xs| - 1], SortBy(spec, xs[..|xs| - 1]));
    }
  }

  /** A sorted sequence lists keys non-decreasing (ascending) or non-increasing (descending). */
  lemma SortedKeys(spec: SortSpec, xs: seq<Sale>, i: int, j: int)
    requires Sorted(spec, xs) && 0 <= i < j < |xs|
    ensures spec.direction == Ascending ==> KeyLe(spec.field, xs[i], xs[j])
    ensures spec.direction == Descending ==> KeyLe(spec.field, xs[j], xs[i])
  {
  }

  /** Any contiguous run of a sorted sequence is sorted. */
  lemma SortedSlice(spec: SortSpec, xs: seq<Sale>, lo: int, hi: int)
    requires Sorted(spec, xs) && 0 <= lo <= hi <= |xs|
    ensures Sorted(spec, xs[lo..hi])
  {
    forall i, j | 0 <= i < j < hi - lo ensures Precedes(spec, xs[lo..hi][i], xs[lo..hi][j]) {
      assert xs[lo..hi][i] == xs[lo + i] && xs[lo..hi][j] == xs[lo + j];
    }
  }
}
