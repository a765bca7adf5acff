/**
 * The sort selector: the current sort is shown as `field:order`, and a
 * chosen option is split at `:` back into a field and an optional order.
 */
module SortingDropdown {
  import opened Wrappers
  import Text
  import Ordering
  import SalesService
  import SalesHook

  /** The value the selector shows for the current sort. */
  function Format(sortBy: string, sortOrder: string): (v: string)
    ensures |v| == |sortBy| + 1 + |sortOrder|
    ensures v[..|sortBy|] == sortBy && v[|sortBy|] == ':' && v[|sortBy| + 1..] == sortOrder
  {
    sortBy + ":" + sortOrder
  }

  /** A chosen value split at `:`: the first piece is the field, the second (if any) the order. */
  datatype Choice = Choice(field: string, order: Option<string>)

  function Parse(value: string): (c: Choice)
    ensures ':' !in value ==> c == Choice(value, None)
  {
    var parts := Text.Split(value, ':');
    if ':' !in value then
      assert Text.Split(value, ':') == [value] by {
        Text.SplitJoin([value], ':');
      }
      Choice(value, None)
    else
      Choice(parts[0], if |parts| > 1 then Some(parts[1]) else None)
  }

  /** The values of the options offered, `None` first. */
  const Options: seq<string> :=
    ["", "date:asc", "date:desc", "quantity:desc", "customerName:asc", "customerName:desc"]

  /** Splitting a formatted value gives back its field and order when neither holds a colon. */
  lemma ParseFormat(sortBy: string, sortOrder: string)
    requires ':' !in sortBy && ':' !in sortOrder
    ensures Parse(Format(sortBy, sortOrder)) == Choice(sortBy, Some(sortOrder))
  {
    var v := Format(sortBy, sortOrder);
    var pieces := [sortBy, sortOrder];
    assert Text.Join(pieces, ':') == v by {
      assert Text.Join(pieces[1..], ':') == sortOrder;
    }
    Text.SplitJoin(pieces, ':');
    assert v[|sortBy|] == ':';
  }

  /** The field and order each non-empty option stands for. */
  function OptionChoice(i: int): (c: (string, string))
    requires 1 <= i < |Options|
    ensures Options[i] == Format(c.0, c.1)
    ensures c.0 in {"date", "quantity", "customerName"} && c.1 in {"asc", "desc"}
  {
    if i == 1 then ("date", "asc")
    else if i == 2 then ("date", "desc")
    else if i == 3 then ("quantity", "desc")
    else if i == 4 then ("customerName", "asc")
    else ("customerName", "desc")
  }

  /**
   * Every non-empty option parses to a known field and order, and
   * formatting them gives back the option.
   */
  lemma OptionsRoundTrip(i: int)
    requires 1 <= i < |Options|
    ensures var c := Parse(Options[i]);
      && c.order.Some?
      && c.field in {"date", "quantity", "customerName"} && c.order.value in {"asc", "desc"}
      && Format(c.field, c.order.value) == Options[i]
  {
    var (f, o) := OptionChoice(i);
    ParseFormat(f, o);
  }

  /** The `None` option parses to an empty field and no order. */
  lemma NoneOptionParse()
    ensures Parse(Options[0]) == Choice("", None)
  {
  }

  /** With no sort chosen the selector shows `:asc`, which is none of the options. */
  lemma UnsortedValueMatchesNoOption()
    ensures Format(SalesHook.InitialState().sorting.sortBy, SalesHook.InitialState().sorting.sortOrder) == ":asc"
    ensures ":asc" !in Options
  {
  }

  /** The sort a field and order name: by that field, descending only for `desc`. */
  function NamedSort(field: string, order: string): Ordering.SortSpec
    requires field in {"date", "quantity", "customerName"}
  {
    var key := if field == "date" then Ordering.ByDate
      else if field == "quantity" then Ordering.ByQuantity
      else Ordering.ByCustomerName;
    Ordering.SortSpec(key, if order == "desc" then Ordering.Descending else Ordering.Ascending)
  }

  /** The sort the engine applies for each option, once the choice reaches it. */
  function EngineSort(i: int): Option<Ordering.SortSpec>
    requires 0 <= i < |Options|
  {
    if i == 0 then None
    else
      var (f, o) := OptionChoice(i);
      Some(NamedSort(f, o))
  }

  /** The engine reads a known field and order as the sort they name. */
  lemma EngineReadsNamedSort(field: string, order: string)
    requires field in {"date", "quantity", "customerName"}
    ensures SalesService.SortSpecOf(Some(field), Some(order)) == Some(NamedSort(field, order))
  {
  }

  /** The sort the engine reads from a request sent after a sort change. */
  lemma RequestSort(st: SalesHook.HookState, sortBy: string, sortOrder: Option<string>, cal: SalesService.Calendar)
    ensures var n := SalesService.Normalize(SalesHook.BuildRequest(SalesHook.UpdateSorting(st, sortBy, sortOrder)), cal);
      n.Success? ==> n.value.sort == SalesService.SortSpecOf(Some(sortBy), Some(sortOrder.GetOr("asc")))
  {
  }

  /**
   * Choosing an option, updating the sort with its parts and sending the
   * request makes the engine sort by the option's field in the option's
   * direction; `None` leaves the records unsorted.
   */
  lemma ChoiceReachesEngine(st: SalesHook.HookState, i: int, cal: SalesService.Calendar)
    requires 0 <= i < |Options|
    ensures var c := Parse(Options[i]);
      var n := SalesService.Normalize(SalesHook.BuildRequest(SalesHook.UpdateSorting(st, c.field, c.order)), cal);
      n.Success? ==> n.value.sort == EngineSort(i)
  {
    var c := Parse(Options[i]);
    RequestSort(st, c.field, c.order, cal);
    ChoiceSort(i);
  }

  /** The sort a chosen option stands for, as the engine reads it. */
  lemma ChoiceSort(i: int)
    requires 0 <= i < |Options|
    ensures var c := Parse(Options[i]);
      SalesService.SortSpecOf(Some(c.field), Some(c.order.GetOr("asc"))) == EngineSort(i)
  {
    if i == 0 {
      NoneOptionParse();
    } else {
      var (f, o) := OptionChoice(i);
      ParseFormat(f, o);
      EngineReadsNamedSort(f, o);
    }
  }
}
