/**
 * Properties of the sales query engine: how each query parameter
 * constrains the matching records, the paging defaults and arithmetic,
 * and how pages cover the ordered matches.
 */
module SalesServiceFacts {
  import opened Wrappers
  import opened SaleRecord
  import opened Seqs
  import opened SalesService
  import Text
  import Numbers
  import Ordering
  import Paging

  /** Page and page size fall back to 1 and 10 when missing, not a number, or zero. */
  lemma PagingDefaults(q: QueryParams, cal: Calendar)
    requires Normalize(q, cal).Success?
    ensures var c := Normalize(q, cal).value;
      && (ParamInt(q.page) in {None, Some(0)} ==> c.page == DefaultPage)
      && (ParamInt(q.page) !in {None, Some(0)} ==> Some(c.page) == ParamInt(q.page))
      && (ParamInt(q.pageSize) in {None, Some(0)} ==> c.pageSize == DefaultPageSize)
      && (ParamInt(q.pageSize) !in {None, Some(0)} ==> Some(c.pageSize) == ParamInt(q.pageSize))
      && c.pageSize != 0
  {
  }

  /**
   * A multi-valued filter: missing, an empty string or an empty list set no
   * constraint; a single string is a one-element list; otherwise the
   * record's value must be listed.
   */
  lemma MultiValueFilter(p: Param, v: string)
    ensures InList(Accepted(p), v) <==>
      || p.Absent? || p == One("") || p == Many([])
      || (p.One? && v == p.value)
      || (p.Many? && v in p.values)
  {
  }

  /** The tags filter passes a record exactly when one of its tags is requested. */
  lemma TagsFilter(p: Param, tags: seq<string>)
    ensures SharesTag(Accepted(p), tags) <==>
      || p.Absent? || p == One("") || p == Many([])
      || (p.One? && p.value in tags)
      || (p.Many? && exists i, j :: 0 <= i < |tags| && 0 <= j < |p.values| && tags[i] == p.values[j])
  {
    if p.Many? && p.values != [] {
      if exists i, j :: 0 <= i < |tags| && 0 <= j < |p.values| && tags[i] == p.values[j] {
        var i, j :| 0 <= i < |tags| && 0 <= j < |p.values| && tags[i] == p.values[j];
        assert tags[i] in tags && tags[i] in p.values;
      }
    }
  }

  /**
   * Age bounds are inclusive; a bound that is missing, empty or not a
   * number is dropped rather than rejected.
   */
  lemma AgeRangeFilter(q: QueryParams, cal: Calendar, age: int)
    requires Normalize(q, cal).Success?
    ensures var c := Normalize(q, cal).value;
      InRange(c.ageMin, c.ageMax, age) <==>
        && (!Present(q.ageMin) || Numbers.ParseInt(q.ageMin.value).None? || Numbers.ParseInt(q.ageMin.value).value <= age)
        && (!Present(q.ageMax) || Numbers.ParseInt(q.ageMax.value).None? || age <= Numbers.ParseInt(q.ageMax.value).value)
  {
  }

  /** Every timestamp up to the end of `d`'s local day, and none after, is at most `EndOfDay(d)`. */
  lemma EndOfDayInclusive(t: int, d: int, offset: int)
    ensures t <= EndOfDay(d, offset) <==> LocalDay(t, offset) <= LocalDay(d, offset)
  {
    var a, b := t + offset, d + offset;
    assert EndOfDay(d, offset) + offset == DayMs * (b / DayMs) + DayMs - 1;
    assert a == DayMs * (a / DayMs) + a % DayMs;
  }

  /**
   * With the same date as start and end, the date filter admits the
   * timestamps from the instant the date parses to up to the end of the
   * server's local day containing that instant.
   */
  lemma SameDayRange(q: QueryParams, cal: Calendar, text: string, day: int, t: int)
    requires q.dateStart == Some(text) && q.dateEnd == Some(text) && text != ""
    requires cal.parseDate(text) == Some(day)
    ensures Normalize(q, cal).Success?
    ensures var c := Normalize(q, cal).value;
      InRange(c.dateFrom, c.dateTo, t) <==> day <= t && LocalDay(t, cal.utcOffset) <= LocalDay(day, cal.utcOffset)
  {
    assert DateBound(q.dateStart, cal) == Success(Some(day));
    assert DateBound(q.dateEnd, cal) == Success(Some(day));
    var c := Normalize(q, cal).value;
    assert c.dateFrom == Some(day) && c.dateTo == Some(EndOfDay(day, cal.utcOffset));
    EndOfDayInclusive(t, day, cal.utcOffset);
  }

  /**
   * When the date parses to the server's local midnight, as a date-time
   * text without a zone does, the same date as start and end admits
   * exactly the timestamps of that local day.
   */
  lemma SameDayLocalMidnight(q: QueryParams, cal: Calendar, text: string, day: int, t: int)
    requires q.dateStart == Some(text) && q.dateEnd == Some(text) && text != ""
    requires cal.parseDate(text) == Some(day) && (day + cal.utcOffset) % DayMs == 0
    ensures var c := Normalize(q, cal).value;
      InRange(c.dateFrom, c.dateTo, t) <==> LocalDay(t, cal.utcOffset) == LocalDay(day, cal.utcOffset)
  {
    SameDayRange(q, cal, text, day, t);
    DayStartInclusive(t, day, cal.utcOffset);
  }

  /** A timestamp is at or after the first millisecond of a local day exactly when its day is not earlier. */
  lemma DayStartInclusive(t: int, day: int, offset: int)
    requires (day + offset) % DayMs == 0
    ensures day <= t <==> LocalDay(day, offset) <= LocalDay(t, offset)
  {
    var a, b := t + offset, day + offset;
    assert b == DayMs * (b / DayMs);
    assert a == DayMs * (a / DayMs) + a % DayMs;
  }

  /**
   * A date-only text such as `2024-03-05` parses to UTC midnight. On a
   * server ahead of UTC that instant falls after the local midnight of the
   * same date, so the same date as start and end admits the rest of that
   * local day but not its first `utcOffset` milliseconds: the millisecond
   * just before UTC midnight is on the same local day and is left out.
   */
  lemma DateOnlyRangeEast(q: QueryParams, cal: Calendar, text: string, day: int, t: int)
    requires q.dateStart == Some(text) && q.dateEnd == Some(text) && text != ""
    requires cal.parseDate(text) == Some(day) && day % DayMs == 0
    requires 0 < cal.utcOffset < DayMs
    ensures var c := Normalize(q, cal).value;
      && LocalDay(day, cal.utcOffset) == day / DayMs
      && (InRange(c.dateFrom, c.dateTo, t) <==> day <= t && LocalDay(t, cal.utcOffset) == day / DayMs)
      && LocalDay(day - 1, cal.utcOffset) == day / DayMs
      && !InRange(c.dateFrom, c.dateTo, day - 1)
  {
    SameDayRange(q, cal, text, day, t);
    SameDayRange(q, cal, text, day, day - 1);
    EastDay(day, cal.utcOffset);
    if day <= t {
      DayMonotone(day, t, cal.utcOffset);
    }
  }

  /**
   * On a server behind UTC, UTC midnight of a date-only text falls on the
   * previous local day, so the same date as start and end admits only the
   * `-utcOffset` milliseconds from UTC midnight to the end of that
   * previous local day, and nothing of the local day the date names.
   */
  lemma DateOnlyRangeWest(q: QueryParams, cal: Calendar, text: string, day: int, t: int)
    requires q.dateStart == Some(text) && q.dateEnd == Some(text) && text != ""
    requires cal.parseDate(text) == Some(day) && day % DayMs == 0
    requires -DayMs < cal.utcOffset < 0
    ensures var c := Normalize(q, cal).value;
      && LocalDay(day, cal.utcOffset) == day / DayMs - 1
      && (InRange(c.dateFrom, c.dateTo, t) <==> day <= t < day - cal.utcOffset)
  {
    SameDayRange(q, cal, text, day, t);
    WestDay(day, t, cal.utcOffset);
  }

  /** Later timestamps are on the same or a later local day. */
  lemma DayMonotone(a: int, b: int, offset: int)
    requires a <= b
    ensures LocalDay(a, offset) <= LocalDay(b, offset)
  {
  }

  /** Ahead of UTC, UTC midnight and the millisecond before it share a local day. */
  lemma EastDay(day: int, offset: int)
    requires day % DayMs == 0 && 0 < offset < DayMs
    ensures LocalDay(day, offset) == day / DayMs && LocalDay(day - 1, offset) == day / DayMs
  {
    var k := day / DayMs;
    assert day == DayMs * k;
    assert DayMs * k <= day + offset < DayMs * (k + 1);
    assert DayMs * k <= day - 1 + offset < DayMs * (k + 1);
  }

  /** Behind UTC, UTC midnight is on the previous local day, which ends `-offset` ms later. */
  lemma WestDay(day: int, t: int, offset: int)
    requires day % DayMs == 0 && -DayMs < offset < 0
    ensures LocalDay(day, offset) == day / DayMs - 1
    ensures LocalDay(t, offset) <= LocalDay(day, offset) <==> t < day - offset
  {
    var k := day / DayMs;
    assert day == DayMs * k;
    assert DayMs * (k - 1) <= day + offset < DayMs * k;
    var a := t + offset;
    assert a == DayMs * (a / DayMs) + a % DayMs;
  }

  /** An unreadable date bound fails the whole request. */
  lemma InvalidDateFails(store: seq<Sale>, q: QueryParams, cal: Calendar)
    requires (Present(q.dateStart) && cal.parseDate(q.dateStart.value).None?)
          || (Present(q.dateEnd) && cal.parseDate(q.dateEnd.value).None?)
    ensures GetSalesData(store, q, cal).Failure?
    ensures GetSalesData(store, q, cal).error.InvalidDate?
  {
  }

  /**
   * Search passes every record when empty; otherwise a record passes
   * exactly when the lower-cased text occurs in its lower-cased name or
   * phone number.
   */
  lemma SearchFilter(q: QueryParams, cal: Calendar, s: Sale)
    requires Normalize(q, cal).Success?
    ensures !Present(q.search) ==> SearchHit(Normalize(q, cal).value.search, s)
    ensures Present(q.search) ==>
      (SearchHit(Normalize(q, cal).value.search, s) <==>
        || (exists i :: Text.OccursAt(Text.Lower(s.customerName), Text.Lower(q.search.value), i))
        || (exists i :: Text.OccursAt(Text.Lower(s.phoneNumber), Text.Lower(q.search.value), i)))
  {
    if Present(q.search) {
      Text.ContainsIff(Text.Lower(s.customerName), Text.Lower(q.search.value));
      Text.ContainsIff(Text.Lower(s.phoneNumber), Text.Lower(q.search.value));
    }
  }

  /** Criteria with no active dimension keep every record, in store order. */
  lemma {:induction false} FilterNoConstraint(store: seq<Sale>, c: Criteria)
    requires c.search.None? && c.regions.None? && c.genders.None? && c.ageMin.None? && c.ageMax.None?
    requires c.categories.None? && c.tags.None? && c.paymentMethods.None? && c.dateFrom.None? && c.dateTo.None?
    ensures Filter(store, c) == store
  {
    if |store| > 0 {
      assert Matches(c, store[0]);
      FilterNoConstraint(store[1..], c);
      assert store == [store[0]] + store[1..];
    }
  }

  /** A request without parameters returns the first ten records of the store and counts all of them. */
  lemma NoParamsReturnsFirstPage(store: seq<Sale>, cal: Calendar)
    ensures GetSalesData(store, NoParams, cal)
      == Success(SalesPage(store[..Min(10, |store|)], PageInfo(|store|, 1, 10, Numbers.CeilDiv(|store|, 10))))
  {
    var c := Normalize(NoParams, cal).value;
    assert c.page == 1 && c.pageSize == 10 && c.sort.None?;
    FilterNoConstraint(store, c);
  }

  /** A positive page size gives zero pages exactly when nothing matches. */
  lemma TotalPagesZeroIff(total: nat, pageSize: int)
    requires pageSize > 0
    ensures Numbers.CeilDiv(total, pageSize) == 0 <==> total == 0
  {
    if Numbers.CeilDiv(total, pageSize) == 0 {
      assert total <= 0 * pageSize;
    }
  }

  /** With a positive page size, the requested page is the `page`-th slice of the ordered matches. */
  lemma QueryReturnsPage(store: seq<Sale>, c: Criteria)
    requires c.pageSize >= 1 && c.page >= 1
    ensures RunQuery(store, c).Success?
    ensures RunQuery(store, c).value.data == Paging.Page(Ordered(c, Filter(store, c)), c.page, c.pageSize)
  {
    var xs := Ordered(c, Filter(store, c));
    assert RunQuery(store, c).Success?
        && RunQuery(store, c).value.data == Paging.Window(xs, (c.page - 1) * c.pageSize, Limit(c.pageSize)) by {
      MulNonNegative(c.page - 1, c.pageSize);
      RunQueryWindow(store, c);
    }
    assert Paging.Window(xs, (c.page - 1) * c.pageSize, Limit(c.pageSize)) == Paging.Page(xs, c.page, c.pageSize) by {
      PositiveLimitPage(xs, c.page, c.pageSize);
    }
  }

  /**
   * Pages 1 to `totalPages` of the ordered matches, concatenated, list
   * every match exactly once and in order.
   */
  lemma PagesCoverMatches(store: seq<Sale>, c: Criteria)
    requires c.pageSize >= 1
    ensures Paging.PagesUpTo(Ordered(c, Filter(store, c)), c.pageSize,
                             Numbers.CeilDiv(|Filter(store, c)|, c.pageSize)) == Ordered(c, Filter(store, c))
  {
    var ordered := Ordered(c, Filter(store, c));
    assert |ordered| == |Filter(store, c)|;
    Paging.PagesPartition(ordered, c.pageSize);
  }

  lemma MulNonNegative(a: int, b: int)
    requires a >= 0 && b >= 0
    ensures a * b >= 0
  {
  }

  /** With a positive page size, the engine's window is page `p`. */
  lemma PositiveLimitPage(xs: seq<Sale>, p: int, s: int)
    requires s >= 1 && p >= 1
    ensures Paging.Window(xs, (p - 1) * s, Limit(s)) == Paging.Page(xs, p, s)
  {
    assert Limit(s) == s;
  }

  /** A negative page number with the default page size fails instead of returning data. */
  lemma NegativePageFails(store: seq<Sale>, cal: Calendar, n: int)
    requires n < 0
    ensures GetSalesData(store, NoParams.(page := Some(Numbers.ShowInt(n))), cal) == Failure(NegativeSkip((n - 1) * 10))
  {
    var q := NoParams.(page := Some(Numbers.ShowInt(n)));
    Numbers.ParseIntShowInt(n, "");
    assert Numbers.ShowInt(n) + "" == Numbers.ShowInt(n);
    assert ParamInt(q.page) == Some(n);
    var c := Normalize(q, cal).value;
    assert c.page == n && c.pageSize == 10;
    assert (c.page - 1) * c.pageSize < 0;
  }
}
