/**
 * The filter options the engine offers: for each filterable dimension,
 * every value some record holds, without duplicates and in ascending
 * string order. The tags list is built from the individual tags of
 * every record.
 */
module SalesOptions {
  import opened SaleRecord
  import Text

  /** The four scalar dimensions a filter can be offered for. */
  datatype Dimension = Region | Gender | Category | Payment

  function FieldValue(d: Dimension, s: Sale): string {
    match d
    case Region => s.customerRegion
    case Gender => s.gender
    case Category => s.productCategory
    case Payment => s.paymentMethod
  }

  datatype FilterOptions = FilterOptions(
    customerRegions: seq<string>,
    genders: seq<string>,
    productCategories: seq<string>,
    paymentMethods: seq<string>,
    tags: seq<string>
  )

  // ------------------------------------------------------ strict order

  /** Strictly ascending, hence also free of duplicates. */
  ghost predicate StrictlySorted(xs: seq<string>) {
    forall i, j :: 0 <= i < j < |xs| ==> Text.StrLt(xs[i], xs[j])
  }

  lemma StrLtTransitive(a: string, b: string, c: string)
    requires Text.StrLt(a, b) && Text.StrLt(b, c)
    ensures Text.StrLt(a, c)
  {
    Text.StrLeTransitive(a, b, c);
    if a == c {
      Text.StrLeAntisymmetric(a, b);
    }
  }

  /** Two different strings are ordered one way or the other. */
  lemma StrLtTrichotomy(a: string, b: string)
    ensures a == b || Text.StrLt(a, b) || Text.StrLt(b, a)
    ensures !(Text.StrLt(a, b) && Text.StrLt(b, a))
  {
    Text.StrLeTotal(a, b);
    if Text.StrLe(a, b) && Text.StrLe(b, a) {
      Text.StrLeAntisymmetric(a, b);
    }
  }

  // ------------------------------------------------ distinct and sort

  /** Puts `x` into its place in a strictly sorted list unless it is already there. */
  function InsertUnique(x: string, xs: seq<string>): (r: seq<string>)
    ensures forall v :: v in r <==> v == x || v in xs
    decreases |xs|
  {
    if |xs| == 0 then [x]
    else if x == xs[0] then xs
    else if Text.StrLt(x, xs[0]) then [x] + xs
    else
      var rest := InsertUnique(x, xs[1..]);
      assert xs == [xs[0]] + xs[1..];
      [xs[0]] + rest
  }

  /** A value below every element of a strictly sorted list can head it. */
  lemma SortedConsLeast(h: string, ys: seq<string>)
    requires StrictlySorted(ys)
    requires forall y :: y in ys ==> Text.StrLt(h, y)
    ensures StrictlySorted([h] + ys)
  {
    var r := [h] + ys;
    forall i, j | 0 <= i < j < |r| ensures Text.StrLt(r[i], r[j]) {
      assert r[j] == ys[j - 1];
      if i > 0 {
        assert r[i] == ys[i - 1];
      }
    }
  }

  /** The head of a strictly sorted list is below everything else in it. */
  lemma HeadLeast(xs: seq<string>, y: string)
    requires StrictlySorted(xs) && |xs| > 0 && y in xs[1..]
    ensures Text.StrLt(xs[0], y)
  {
    var k :| 0 <= k < |xs[1..]| && xs[1..][k] == y;
    assert xs[k + 1] == y;
  }

  lemma {:induction false} InsertUniqueSorted(x: string, xs: seq<string>)
    requires StrictlySorted(xs)
    ensures StrictlySorted(InsertUnique(x, xs))
    decreases |xs|
  {
    if |xs| == 0 {
    } else if x == xs[0] {
    } else if Text.StrLt(x, xs[0]) {
      forall y | y in xs ensures Text.StrLt(x, y) {
        if y != xs[0] {
          assert xs == [xs[0]] + xs[1..];
          HeadLeast(xs, y);
          StrLtTransitive(x, xs[0], y);
        }
      }
      SortedConsLeast(x, xs);
    } else {
      var tail := xs[1..];
      var rest := InsertUnique(x, tail);
      assert StrictlySorted(tail) by {
        forall i, j | 0 <= i < j < |tail| ensures Text.StrLt(tail[i], tail[j]) {
          assert tail[i] == xs[i + 1] && tail[j] == xs[j + 1];
        }
      }
      InsertUniqueSorted(x, tail);
      StrLtTrichotomy(x, xs[0]);
      forall y | y in rest ensures Text.StrLt(xs[0], y) {
        if y != x {
          HeadLeast(xs, y);
        }
      }
      SortedConsLeast(xs[0], rest);
    }
  }

  /** `distinct` followed by `sort()`: each value once, in ascending order. */
  function SortedDistinct(vs: seq<string>): (r: seq<string>)
    ensures forall v :: v in r <==> v in vs
  {
    if |vs| == 0 then []
    else
      assert vs == [vs[0]] + vs[1..];
      InsertUnique(vs[0], SortedDistinct(vs[1..]))
  }

  lemma {:induction false} SortedDistinctSorted(vs: seq<string>)
    ensures StrictlySorted(SortedDistinct(vs))
  {
    if |vs| > 0 {
      SortedDistinctSorted(vs[1..]);
      InsertUniqueSorted(vs[0], SortedDistinct(vs[1..]));
    }
  }

  /**
   * A strictly sorted list is determined by its elements: any other way
   * of removing duplicates and sorting yields the same list.
   */
  lemma {:induction false} StrictlySortedUnique(a: seq<string>, b: seq<string>)
    requires StrictlySorted(a) && StrictlySorted(b)
    requires forall v :: v in a <==> v in b
    ensures a == b
    decreases |a|
  {
    if |a| == 0 {
      if |b| > 0 {
        HeadIn(b);
        assert false;
      }
    } else {
      assert a[0] in b;
      assert b[0] in a;
      if a[0] != b[0] {
        assert b[0] in a[1..] by {
          var k :| 0 <= k < |a| && a[k] == b[0];
          assert a[1..][k - 1] == b[0];
        }
        assert a[0] in b[1..] by {
          var k :| 0 <= k < |b| && b[k] == a[0];
          assert b[1..][k - 1] == a[0];
        }
        HeadLeast(a, b[0]);
        HeadLeast(b, a[0]);
        StrLtTrichotomy(a[0], b[0]);
        assert false;
      }
      var at, bt := a[1..], b[1..];
      SortedTail(a);
      SortedTail(b);
      forall v ensures v in at <==> v in bt {
        TailMembers(a, v);
        TailMembers(b, v);
      }
      StrictlySortedUnique(at, bt);
      assert a == [a[0]] + at && b == [b[0]] + bt;
    }
  }

  lemma HeadIn(xs: seq<string>)
    requires |xs| > 0
    ensures xs[0] in xs
  {
  }

  lemma SortedTail(xs: seq<string>)
    requires StrictlySorted(xs) && |xs| > 0
    ensures StrictlySorted(xs[1..])
  {
    var tail := xs[1..];
    forall i, j | 0 <= i < j < |tail| ensures Text.StrLt(tail[i], tail[j]) {
      assert tail[i] == xs[i + 1] && tail[j] == xs[j + 1];
    }
  }

  /** The tail of a strictly sorted list holds everything but the head. */
  lemma TailMembers(xs: seq<string>, v: string)
    requires StrictlySorted(xs) && |xs| > 0
    ensures v in xs[1..] <==> v in xs && v != xs[0]
  {
    if v in xs[1..] {
      HeadLeast(xs, v);
    }
    if v in xs && v != xs[0] {
      var k :| 0 <= k < |xs| && xs[k] == v;
      assert xs[1..][k - 1] == v;
    }
  }

  // ---------------------------------------------------------- columns

  /** One dimension's value of every record, in store order. */
  function Column(store: seq<Sale>, d: Dimension): (r: seq<string>)
    ensures forall v :: v in r <==> exists s :: s in store && FieldValue(d, s) == v
  {
    if |store| == 0 then []
    else
      var rest := Column(store[1..], d);
      assert forall s :: s in store <==> s == store[0] || s in store[1..];
      [FieldValue(d, store[0])] + rest
  }

  /** Every tag of every record, in store order: `distinct` on an array field. */
  function AllTags(store: seq<Sale>): (r: seq<string>)
    ensures forall t :: t in r <==> exists s :: s in store && t in s.tags
  {
    if |store| == 0 then []
    else
      var rest := AllTags(store[1..]);
      assert forall s :: s in store <==> s == store[0] || s in store[1..];
      store[0].tags + rest
  }

  /** The options for every filter, drawn from the whole store. */
  function GetFilterOptions(store: seq<Sale>): FilterOptions {
    FilterOptions(
      customerRegions := SortedDistinct(Column(store, Region)),
      genders := SortedDistinct(Column(store, Gender)),
      productCategories := SortedDistinct(Column(store, Category)),
      paymentMethods := SortedDistinct(Column(store, Payment)),
      tags := SortedDistinct(AllTags(store)))
  }

  /** The options list of one scalar dimension. */
  function OptionsFor(o: FilterOptions, d: Dimension): seq<string> {
    match d
    case Region => o.customerRegions
    case Gender => o.genders
    case Category => o.productCategories
    case Payment => o.paymentMethods
  }

  /**
   * Each options list is strictly ascending (so duplicate-free) and holds
   * exactly the values some record of the store has.
   */
  lemma FilterOptionsSpec(store: seq<Sale>, d: Dimension)
    ensures var o := GetFilterOptions(store);
      && StrictlySorted(OptionsFor(o, d))
      && (forall v :: v in OptionsFor(o, d) <==> exists s :: s in store && FieldValue(d, s) == v)
  {
    SortedDistinctSorted(Column(store, d));
  }

  /** The tags list is strictly ascending and holds exactly the tags some record carries. */
  lemma FilterOptionsTags(store: seq<Sale>)
    ensures var o := GetFilterOptions(store);
      && StrictlySorted(o.tags)
      && (forall t :: t in o.tags <==> exists s :: s in store && t in s.tags)
  {
    SortedDistinctSorted(AllTags(store));
  }
}
