/**
 * The filter panel's two change handlers: a checkbox toggles one value
 * in a list filter, a text or date input replaces one text filter. Each
 * hands a one-key patch to the filter update of the screen state.
 */
module FilterPanel {
  import opened Wrappers
  import opened SalesHook

  /** The list without any occurrence of `v`, other values in their order. */
  function Remove(xs: seq<string>, v: string): (r: seq<string>)
    ensures v !in r
    ensures forall w :: w != v ==> multiset(r)[w] == multiset(xs)[w]
    ensures |r| <= |xs|
  {
    if |xs| == 0 then []
    else
      assert xs == [xs[0]] + xs[1..];
      if xs[0] == v then Remove(xs[1..], v) else [xs[0]] + Remove(xs[1..], v)
  }

  /** Removing a value that is not there changes nothing. */
  lemma {:induction false} RemoveAbsent(xs: seq<string>, v: string)
    requires v !in xs
    ensures Remove(xs, v) == xs
  {
    if |xs| > 0 {
      RemoveAbsent(xs[1..], v);
      assert xs == [xs[0]] + xs[1..];
    }
  }

  /** Removal works piecewise, so the values that stay keep their relative order. */
  lemma {:induction false} RemoveAppend(a: seq<string>, b: seq<string>, v: string)
    ensures Remove(a + b, v) == Remove(a, v) + Remove(b, v)
  {
    if |a| > 0 {
      assert (a + b)[1..] == a[1..] + b;
      RemoveAppend(a[1..], b, v);
    } else {
      assert a + b == b;
    }
  }

  /** `handleMultiSelectChange`'s new list: drop `v` if selected, else append it. */
  function Toggle(current: Option<seq<string>>, v: string): (r: seq<string>)
    ensures var cur := current.GetOr([]); v in cur ==> v !in r
    ensures var cur := current.GetOr([]); v !in cur ==> r == cur + [v]
  {
    var cur := current.GetOr([]);
    if v in cur then Remove(cur, v) else cur + [v]
  }

  /** Toggling a value that was not selected, twice, gives back the same list. */
  lemma ToggleTwice(xs: seq<string>, v: string)
    requires v !in xs
    ensures Toggle(Some(Toggle(Some(xs), v)), v) == xs
  {
    RemoveAppend(xs, [v], v);
    RemoveAbsent(xs, v);
    assert Remove([v], v) == [];
  }

  /** Toggling keeps every other value with its multiplicity; a missing list counts as empty. */
  lemma ToggleOthers(current: Option<seq<string>>, v: string, w: string)
    requires w != v
    ensures multiset(Toggle(current, v))[w] == multiset(current.GetOr([]))[w]
    ensures Toggle(None, v) == [v]
  {
  }

  /** The list a filter currently holds, if it holds one. */
  function CurrentList(f: Filters, k: FilterKey): Option<seq<string>> {
    if k in f && f[k].Values? then Some(f[k].values) else None
  }

  /** The patch a checkbox sends: the toggled list under its own key only. */
  function MultiSelectChange(f: Filters, k: FilterKey, v: string): (patch: Filters)
    ensures patch.Keys == {k}
    ensures patch[k] == Values(Toggle(CurrentList(f, k), v))
  {
    map[k := Values(Toggle(CurrentList(f, k), v))]
  }

  /** The patch a text or date input sends: its value unchanged, under its own key only. */
  function InputChange(k: FilterKey, value: string): (patch: Filters)
    ensures patch.Keys == {k} && patch[k] == Text(value)
  {
    map[k := Text(value)]
  }

  /**
   * A checkbox changes only its own filter, returns to the first page,
   * and keeps a well-typed filter state well typed.
   */
  lemma CheckboxChangesOneFilter(st: HookState, k: FilterKey, v: string)
    requires WellTyped(st.filters) && IsListKey(k)
    ensures var r := UpdateFilters(st, MultiSelectChange(st.filters, k, v));
      && r.filters[k] == Values(Toggle(Some(st.filters[k].values), v))
      && (forall j :: j in st.filters && j != k ==> r.filters[j] == st.filters[j])
      && r.currentPage == 1 && r.sorting == st.sorting
      && WellTyped(r.filters)
  {
    UpdateFiltersOnly(st, MultiSelectChange(st.filters, k, v));
    UpdateFiltersWellTyped(st, MultiSelectChange(st.filters, k, v));
  }

  /** An input changes only its own text filter, to exactly the typed value. */
  lemma InputChangesOneFilter(st: HookState, k: FilterKey, value: string)
    requires WellTyped(st.filters) && !IsListKey(k)
    ensures var r := UpdateFilters(st, InputChange(k, value));
      && r.filters[k] == Text(value)
      && (forall j :: j in st.filters && j != k ==> r.filters[j] == st.filters[j])
      && r.currentPage == 1
      && WellTyped(r.filters)
  {
    UpdateFiltersOnly(st, InputChange(k, value));
    UpdateFiltersWellTyped(st, InputChange(k, value));
  }
}
