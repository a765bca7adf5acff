/**
 * The sales query engine: loosely typed query parameters are normalised
 * into criteria, the criteria become one conjunctive predicate over the
 * records, and the matching records are counted, ordered and paged.
 * The record store is an in-memory sequence in store order.
 */
module SalesService {
  import opened Wrappers
  import opened SaleRecord
  import opened Seqs
  import Text
  import Numbers
  import Ordering
  import Paging

  // ------------------------------------------------------------ inputs

  /**
   * A multi-valued query parameter as the HTTP layer hands it over:
   * missing, one string, or a list of strings.
   */
  datatype Param = Absent | One(value: string) | Many(values: seq<string>)

  /**
   * The query parameters of one request. A scalar parameter is `None`
   * when it is missing; the engine treats a missing scalar and an empty
   * one alike.
   */
  datatype QueryParams = QueryParams(
    search: Option<string>,
    customerRegion: Param,
    gender: Param,
    ageMin: Option<string>,
    ageMax: Option<string>,
    productCategory: Param,
    tags: Param,
    paymentMethod: Param,
    dateStart: Option<string>,
    dateEnd: Option<string>,
    sortBy: Option<string>,
    sortOrder: Option<string>,
    page: Option<string>,
    pageSize: Option<string>
  )

  /** A request that sets no parameter at all. */
  const NoParams: QueryParams :=
    QueryParams(None, Absent, Absent, None, None, Absent, Absent, Absent, None, None, None, None, None, None)

  const DefaultPage: int := 1
  const DefaultPageSize: int := 10
  const DayMs: int := 86_400_000

  /**
   * What the engine borrows from the runtime's clock library: how a date
   * string becomes a timestamp (`None` for an invalid date) and the
   * server's fixed offset from UTC in milliseconds.
   */
  datatype Calendar = Calendar(parseDate: string -> Option<int>, utcOffset: int)

  // ---------------------------------------------------------- criteria

  /**
   * Normalised criteria. A `None` list or bound constrains nothing; the
   * end of the date range is already moved to the last millisecond of
   * its day.
   */
  datatype Criteria = Criteria(
    search: Option<string>,
    regions: Option<seq<string>>,
    genders: Option<seq<string>>,
    ageMin: Option<int>,
    ageMax: Option<int>,
    categories: Option<seq<string>>,
    tags: Option<seq<string>>,
    paymentMethods: Option<seq<string>>,
    dateFrom: Option<int>,
    dateTo: Option<int>,
    sort: Option<Ordering.SortSpec>,
    page: int,
    pageSize: int
  )

  /**
   * Why a request fails: a date bound the database cannot cast, or a
   * page request that yields a negative skip.
   */
  datatype QueryError = InvalidDate(text: string) | NegativeSkip(skip: int)

  datatype PageInfo = PageInfo(total: nat, page: int, pageSize: int, totalPages: int)
  datatype SalesPage = SalesPage(data: seq<Sale>, pagination: PageInfo)

  /** A scalar parameter that is present and non-empty (JavaScript truthiness). */
  predicate Present(o: Option<string>) {
    o.Some? && o.value != ""
  }

  /** The values a multi-valued parameter accepts; `None` when it sets no constraint. */
  function Accepted(p: Param): Option<seq<string>> {
    match p
    case Absent => None
    case One(v) => if v == "" then None else Some([v])
    case Many(vs) => if |vs| == 0 then None else Some(vs)
  }

  /** An age bound applies only when present and readable by `parseInt`. */
  function AgeBound(o: Option<string>): Option<int> {
    if Present(o) then Numbers.ParseInt(o.value) else None
  }

  /** `parseInt` of a parameter; a missing one reads as NaN. */
  function ParamInt(o: Option<string>): Option<int> {
    if o.Some? then Numbers.ParseInt(o.value) else None
  }

  /** The local calendar day a timestamp falls in, counted from the epoch. */
  function LocalDay(t: int, offset: int): int {
    (t + offset) / DayMs
  }

  /** `setHours(23, 59, 59, 999)`: the last millisecond of `t`'s local day. */
  function EndOfDay(t: int, offset: int): (r: int)
    ensures t <= r
    ensures LocalDay(r, offset) == LocalDay(t, offset)
    ensures LocalDay(r + 1, offset) == LocalDay(t, offset) + 1
  {
    t - (t + offset) % DayMs + DayMs - 1
  }

  /** A date bound: absent, a timestamp, or a string that is not a date. */
  function DateBound(o: Option<string>, cal: Calendar): Result<Option<int>, QueryError> {
    if !Present(o) then Success(None)
    else match cal.parseDate(o.value)
      case None => Failure(InvalidDate(o.value))
      case Some(t) => Success(Some(t))
  }

  /**
   * The sort the request selects: only three field names are recognised,
   * and the order is descending only for exactly `desc`.
   */
  function SortSpecOf(sortBy: Option<string>, sortOrder: Option<string>): (r: Option<Ordering.SortSpec>)
    ensures r.Some? <==> sortBy == Some("date") || sortBy == Some("quantity") || sortBy == Some("customerName")
    ensures r.Some? ==> (r.value.direction == Ordering.Descending <==> sortOrder == Some("desc"))
    ensures r.Some? && sortBy == Some("date") ==> r.value.field == Ordering.ByDate
    ensures r.Some? && sortBy == Some("quantity") ==> r.value.field == Ordering.ByQuantity
    ensures r.Some? && sortBy == Some("customerName") ==> r.value.field == Ordering.ByCustomerName
  {
    var direction := if sortOrder == Some("desc") then Ordering.Descending else Ordering.Ascending;
    if !Present(sortBy) then None
    else if sortBy.value == "date" then Some(Ordering.SortSpec(Ordering.ByDate, direction))
    else if sortBy.value == "quantity" then Some(Ordering.SortSpec(Ordering.ByQuantity, direction))
    else if sortBy.value == "customerName" then Some(Ordering.SortSpec(Ordering.ByCustomerName, direction))
    else None
  }

  /** Turns raw parameters into criteria; only an unreadable date is fatal. */
  function Normalize(q: QueryParams, cal: Calendar): Result<Criteria, QueryError> {
    var from := DateBound(q.dateStart, cal);
    var to := DateBound(q.dateEnd, cal);
    if from.Failure? then Failure(from.error)
    else if to.Failure? then Failure(to.error)
    else
      Success(Criteria(
        search := if Present(q.search) then q.search else None,
        regions := Accepted(q.customerRegion),
        genders := Accepted(q.gender),
        ageMin := AgeBound(q.ageMin),
        ageMax := AgeBound(q.ageMax),
        categories := Accepted(q.productCategory),
        tags := Accepted(q.tags),
        paymentMethods := Accepted(q.paymentMethod),
        dateFrom := from.value,
        dateTo := if to.value.Some? then Some(EndOfDay(to.value.value, cal.utcOffset)) else None,
        sort := SortSpecOf(q.sortBy, q.sortOrder),
        page := Numbers.OrDefault(ParamInt(q.page), DefaultPage),
        pageSize := Numbers.OrDefault(ParamInt(q.pageSize), DefaultPageSize)))
  }

  // ---------------------------------------------------------- matching

  /** Case-insensitive substring search over name and phone number. */
  predicate SearchHit(search: Option<string>, s: Sale) {
    search.None?
    || Text.Contains(Text.Lower(s.customerName), Text.Lower(search.value))
    || Text.Contains(Text.Lower(s.phoneNumber), Text.Lower(search.value))
  }

  /** `$in` on a scalar field. */
  predicate InList(accepted: Option<seq<string>>, v: string) {
    accepted.None? || v in accepted.value
  }

  /** `$in` on an array field: some element is accepted. */
  predicate SharesTag(accepted: Option<seq<string>>, tags: seq<string>) {
    accepted.None? || exists t :: t in tags && t in accepted.value
  }

  /** `$gte` / `$lte` with each bound optional, both inclusive. */
  predicate InRange(lo: Option<int>, hi: Option<int>, v: int) {
    (lo.None? || lo.value <= v) && (hi.None? || v <= hi.value)
  }

  /** The whole query: every active dimension must accept the record. */
  predicate Matches(c: Criteria, s: Sale) {
    && SearchHit(c.search, s)
    && InList(c.regions, s.customerRegion)
    && InList(c.genders, s.gender)
    && InRange(c.ageMin, c.ageMax, s.age)
    && InList(c.categories, s.productCategory)
    && SharesTag(c.tags, s.tags)
    && InList(c.paymentMethods, s.paymentMethod)
    && InRange(c.dateFrom, c.dateTo, s.date)
  }

  /** The matching records in store order. */
  function Filter(store: seq<Sale>, c: Criteria): (r: seq<Sale>)
    ensures |r| <= |store|
  {
    if |store| == 0 then []
    else if Matches(c, store[0]) then [store[0]] + Filter(store[1..], c)
    else Filter(store[1..], c)
  }

  /**
   * The filter keeps each matching record as often as the store holds it
   * and drops every other record.
   */
  lemma {:induction false} FilterCounts(store: seq<Sale>, c: Criteria)
    ensures forall x :: multiset(Filter(store, c))[x] == if Matches(c, x) then multiset(store)[x] else 0
    ensures forall x :: x in Filter(store, c) <==> x in store && Matches(c, x)
  {
    if |store| > 0 {
      FilterCounts(store[1..], c);
      assert store == [store[0]] + store[1..];
    }
  }

  /** Filtering twice is filtering once. */
  lemma {:induction false} FilterIdempotent(store: seq<Sale>, c: Criteria)
    ensures Filter(Filter(store, c), c) == Filter(store, c)
  {
    if |store| > 0 {
      FilterIdempotent(store[1..], c);
      var rest := Filter(store[1..], c);
      if Matches(c, store[0]) {
        assert ([store[0]] + rest)[1..] == rest;
      }
    }
  }

  // ------------------------------------------------------------ result

  /** The matching records in the requested order; store order when no sort applies. */
  function Ordered(c: Criteria, xs: seq<Sale>): (r: seq<Sale>)
    ensures multiset(r) == multiset(xs)
    ensures |r| == |xs|
    ensures c.sort.Some? ==> Ordering.Sorted(c.sort.value, r)
  {
    match c.sort
    case None => xs
    case Some(spec) =>
      Ordering.SortBySorted(spec, xs);
      Ordering.SortBy(spec, xs)
  }

  /** Magnitude of a page size: a negative limit returns as many records as a positive one. */
  function Limit(pageSize: int): nat {
    if pageSize < 0 then -pageSize else pageSize
  }

  /** Counts, orders and pages the matching records for normalised criteria. */
  function RunQuery(store: seq<Sale>, c: Criteria): (r: Result<SalesPage, QueryError>)
    requires c.pageSize != 0
  {
    var matching := Filter(store, c);
    var skip := (c.page - 1) * c.pageSize;
    if skip < 0 then Failure(NegativeSkip(skip))
    else
      Success(SalesPage(
        Paging.Window(Ordered(c, matching), skip, Limit(c.pageSize)),
        PageInfo(|matching|, c.page, c.pageSize, Numbers.CeilDiv(|matching|, c.pageSize))))
  }

  /** With a non-negative skip the query succeeds with the window at that skip. */
  lemma RunQueryWindow(store: seq<Sale>, c: Criteria)
    requires c.pageSize != 0 && (c.page - 1) * c.pageSize >= 0
    ensures RunQuery(store, c).Success?
    ensures RunQuery(store, c).value.data
         == Paging.Window(Ordered(c, Filter(store, c)), (c.page - 1) * c.pageSize, Limit(c.pageSize))
  {
  }

  /**
   * What a page holds: at most a page of records, each a matching record
   * of the store, ordered by the requested key.
   */
  lemma RunQueryData(store: seq<Sale>, c: Criteria)
    requires c.pageSize != 0 && RunQuery(store, c).Success?
    ensures var data := RunQuery(store, c).value.data;
      && |data| <= Limit(c.pageSize)
      && (forall x :: x in data ==> x in store && Matches(c, x))
      && (c.sort.Some? ==> Ordering.Sorted(c.sort.value, data))
  {
    var matching := Filter(store, c);
    var skip := (c.page - 1) * c.pageSize;
    var ordered := Ordered(c, matching);
    var lo, hi := Min(skip, |ordered|), Min(skip + Limit(c.pageSize), |ordered|);
    var data := RunQuery(store, c).value.data;
    assert data == ordered[lo..hi];
    FilterCounts(store, c);
    assert forall x :: x in data ==> x in multiset(ordered);
    if c.sort.Some? {
      Ordering.SortedSlice(c.sort.value, ordered, lo, hi);
    }
  }

  /** The engine: normalise, then count, order and page. */
  function GetSalesData(store: seq<Sale>, q: QueryParams, cal: Calendar): (r: Result<SalesPage, QueryError>)
    ensures r.Success? ==> Normalize(q, cal).Success?
  {
    match Normalize(q, cal)
    case Failure(e) => Failure(e)
    case Success(c) => RunQuery(store, c)
  }

  /** Normalisation fails exactly when one of the two date bounds is not a date. */
  lemma NormalizeFails(q: QueryParams, cal: Calendar)
    ensures Normalize(q, cal).Failure? <==> DateBound(q.dateStart, cal).Failure? || DateBound(q.dateEnd, cal).Failure?
  {
  }

  /** A request fails only for an unreadable date or a negative skip. */
  lemma GetSalesDataFails(store: seq<Sale>, q: QueryParams, cal: Calendar)
    ensures GetSalesData(store, q, cal).Failure? <==>
      || DateBound(q.dateStart, cal).Failure? || DateBound(q.dateEnd, cal).Failure?
      || (Normalize(q, cal).value.page - 1) * Normalize(q, cal).value.pageSize < 0
  {
    NormalizeFails(q, cal);
    if Normalize(q, cal).Success? {
      var c := Normalize(q, cal).value;
      assert GetSalesData(store, q, cal) == RunQuery(store, c);
    }
  }

  /**
   * A successful request counts every match, returns at most a page of
   * matching records ordered by the requested key, and reports the
   * normalised page, page size and the ceiling of total over page size.
   */
  lemma GetSalesDataSpec(store: seq<Sale>, q: QueryParams, cal: Calendar)
    requires GetSalesData(store, q, cal).Success?
    ensures var c := Normalize(q, cal).value;
      var r := GetSalesData(store, q, cal).value;
      && r.pagination.total == |Filter(store, c)|
      && (forall x :: x in store && Matches(c, x) ==> x in Filter(store, c))
      && r.pagination.page == c.page && r.pagination.pageSize == c.pageSize
      && r.pagination.totalPages == Numbers.CeilDiv(r.pagination.total, c.pageSize)
      && (forall x :: x in r.data ==> x in store && Matches(c, x))
      && |r.data| <= Limit(c.pageSize)
      && (c.sort.Some? ==> Ordering.Sorted(c.sort.value, r.data))
  {
    var c := Normalize(q, cal).value;
    RunQueryData(store, c);
    FilterCounts(store, c);
  }
}
