/**
 * The client-side state of the sales screen: the filters, the sort and
 * the current page the user has chosen, and the last page of results
 * the server returned. Each user action is a pure transition; a fetch is
 * split into the request it sends and the state it leaves behind.
 */
module SalesHook {
  import opened Wrappers
  import opened SaleRecord
  import Numbers
  import Ordering
  import SalesService

  // ------------------------------------------------------------ filters

  datatype FilterKey =
    | Search | CustomerRegion | Gender | AgeMin | AgeMax
    | ProductCategory | Tags | PaymentMethod | DateStart | DateEnd

  /** The filters chosen from a list of values; the rest are free text. */
  predicate IsListKey(k: FilterKey) {
    k in {CustomerRegion, Gender, ProductCategory, Tags, PaymentMethod}
  }

  datatype FilterValue = Text(text: string) | Values(values: seq<string>)

  type Filters = map<FilterKey, FilterValue>

  /** Every key is present, lists under list keys and text under the others. */
  ghost predicate WellTyped(f: Filters) {
    forall k: FilterKey :: k in f && (IsListKey(k) <==> f[k].Values?)
  }

  /** No text and no selected value anywhere. */
  function InitialFilters(): Filters {
    map[
      Search := Text(""), CustomerRegion := Values([]), Gender := Values([]),
      AgeMin := Text(""), AgeMax := Text(""), ProductCategory := Values([]),
      Tags := Values([]), PaymentMethod := Values([]), DateStart := Text(""), DateEnd := Text("")]
  }

  /** The initial filters name every key, with an empty list or empty text as the key demands. */
  lemma InitialFiltersWellTyped()
    ensures WellTyped(InitialFilters())
    ensures forall k :: k in InitialFilters() ==> InitialFilters()[k] in {Text(""), Values([])}
  {
    var f := InitialFilters();
    forall k: FilterKey ensures k in f && (IsListKey(k) <==> f[k].Values?) {
      match k
      case Search =>
      case CustomerRegion =>
      case Gender =>
      case AgeMin =>
      case AgeMax =>
      case ProductCategory =>
      case Tags =>
      case PaymentMethod =>
      case DateStart =>
      case DateEnd =>
    }
  }

  // -------------------------------------------------------------- state

  datatype Sorting = Sorting(sortBy: string, sortOrder: string)

  datatype HookState = HookState(
    data: seq<Sale>,
    pagination: SalesService.PageInfo,
    filters: Filters,
    sorting: Sorting,
    currentPage: int,
    error: Option<string>
  )

  /** The pagination shown before any response and after a failed one. */
  const EmptyPagination: SalesService.PageInfo := SalesService.PageInfo(0, 1, 10, 0)

  const FetchFailed: string := "Failed to fetch data"

  function InitialState(): (st: HookState)
    ensures st.data == [] && st.currentPage == 1 && st.error.None?
    ensures st.pagination.total == 0 && st.pagination.page == 1
    ensures st.pagination.pageSize == 10 && st.pagination.totalPages == 0
    ensures st.sorting == Sorting("", "asc") && st.filters == InitialFilters()
  {
    HookState([], EmptyPagination, InitialFilters(), Sorting("", "asc"), 1, None)
  }

  // -------------------------------------------------------- transitions

  /** `updateFilters`: the given keys overwrite their filters; back to page 1. */
  function UpdateFilters(st: HookState, patch: Filters): (r: HookState)
    ensures r.currentPage == 1
    ensures r.filters.Keys == st.filters.Keys + patch.Keys
  {
    st.(filters := st.filters + patch, currentPage := 1)
  }

  /** `updateSorting`: a missing order means ascending; back to page 1. */
  function UpdateSorting(st: HookState, sortBy: string, sortOrder: Option<string>): (r: HookState)
    ensures r.currentPage == 1 && r.sorting.sortBy == sortBy
    ensures r.sorting.sortOrder == (if sortOrder.Some? then sortOrder.value else "asc")
  {
    st.(sorting := Sorting(sortBy, sortOrder.GetOr("asc")), currentPage := 1)
  }

  /** `clearFilters`: every filter back to its initial value; back to page 1. */
  function ClearFilters(st: HookState): (r: HookState)
    ensures r.currentPage == 1 && r.sorting == st.sorting
  {
    st.(filters := InitialFilters(), currentPage := 1)
  }

  /** `setCurrentPage`, wired to the pagination bar. */
  function SetPage(st: HookState, p: int): (r: HookState)
    ensures r.currentPage == p
    ensures r.filters == st.filters && r.sorting == st.sorting
    ensures r.data == st.data && r.pagination == st.pagination && r.error == st.error
  {
    st.(currentPage := p)
  }

  /**
   * A filter update changes exactly the given keys, keeps every other
   * filter, the sort, the data and the error, and returns to page 1.
   */
  lemma UpdateFiltersOnly(st: HookState, patch: Filters)
    ensures var r := UpdateFilters(st, patch);
      && (forall k :: k in patch ==> r.filters[k] == patch[k])
      && (forall k :: k in st.filters && k !in patch ==> r.filters[k] == st.filters[k])
      && r.sorting == st.sorting && r.data == st.data && r.pagination == st.pagination
      && r.error == st.error && r.currentPage == 1
  {
  }

  /** A well-typed update of well-typed filters leaves them well typed. */
  lemma UpdateFiltersWellTyped(st: HookState, patch: Filters)
    requires WellTyped(st.filters)
    requires forall k :: k in patch ==> (IsListKey(k) <==> patch[k].Values?)
    ensures WellTyped(UpdateFilters(st, patch).filters)
  {
  }

  /** A sort change keeps the filters, and clearing keeps the sort. */
  lemma SortAndClearIndependent(st: HookState, sortBy: string, sortOrder: Option<string>)
    ensures UpdateSorting(st, sortBy, sortOrder).filters == st.filters
    ensures ClearFilters(st).sorting == st.sorting
    ensures ClearFilters(st).filters == InitialState().filters
  {
  }

  /** Clearing after any sequence of filter updates is the same as clearing at once. */
  lemma ClearFiltersForgets(st: HookState, patch: Filters)
    ensures ClearFilters(UpdateFilters(st, patch)) == ClearFilters(st)
  {
  }

  // ------------------------------------------------------------ fetching

  function TextParam(f: Filters, k: FilterKey): Option<string> {
    if k in f && f[k].Text? then Some(f[k].text) else None
  }

  /** A list filter on the wire: an empty list sends nothing. */
  function ListParam(f: Filters, k: FilterKey): SalesService.Param {
    if k in f && f[k].Values? && |f[k].values| > 0 then SalesService.Many(f[k].values)
    else SalesService.Absent
  }

  /**
   * The query a fetch sends: every filter, the sort, the current page and
   * the page size of the last response, as the server receives them.
   */
  function BuildRequest(st: HookState): (q: SalesService.QueryParams)
    ensures q.page == Some(Numbers.ShowInt(st.currentPage))
    ensures q.pageSize == Some(Numbers.ShowInt(st.pagination.pageSize))
    ensures q.sortBy == Some(st.sorting.sortBy) && q.sortOrder == Some(st.sorting.sortOrder)
  {
    var f := st.filters;
    SalesService.QueryParams(
      search := TextParam(f, Search),
      customerRegion := ListParam(f, CustomerRegion),
      gender := ListParam(f, Gender),
      ageMin := TextParam(f, AgeMin),
      ageMax := TextParam(f, AgeMax),
      productCategory := ListParam(f, ProductCategory),
      tags := ListParam(f, Tags),
      paymentMethod := ListParam(f, PaymentMethod),
      dateStart := TextParam(f, DateStart),
      dateEnd := TextParam(f, DateEnd),
      sortBy := Some(st.sorting.sortBy),
      sortOrder := Some(st.sorting.sortOrder),
      page := Some(Numbers.ShowInt(st.currentPage)),
      pageSize := Some(Numbers.ShowInt(st.pagination.pageSize)))
  }

  /** The engine reads back the page the client asked for, unless it is 0. */
  lemma RequestPageReadBack(st: HookState, cal: SalesService.Calendar)
    requires SalesService.Normalize(BuildRequest(st), cal).Success?
    ensures var c := SalesService.Normalize(BuildRequest(st), cal).value;
      && (st.currentPage != 0 ==> c.page == st.currentPage)
      && (st.pagination.pageSize != 0 ==> c.pageSize == st.pagination.pageSize)
  {
    RequestPaging(st, cal);
    Numbers.ParseIntShowInt(st.currentPage, "");
    Numbers.ParseIntShowInt(st.pagination.pageSize, "");
    assert Numbers.ShowInt(st.currentPage) + "" == Numbers.ShowInt(st.currentPage);
    assert Numbers.ShowInt(st.pagination.pageSize) + "" == Numbers.ShowInt(st.pagination.pageSize);
  }

  /** How the engine reads the printed page and page size of a request. */
  lemma RequestPaging(st: HookState, cal: SalesService.Calendar)
    ensures var n := SalesService.Normalize(BuildRequest(st), cal);
      n.Success? ==>
        && n.value.page == Numbers.OrDefault(Numbers.ParseInt(Numbers.ShowInt(st.currentPage)), SalesService.DefaultPage)
        && n.value.pageSize == Numbers.OrDefault(Numbers.ParseInt(Numbers.ShowInt(st.pagination.pageSize)), SalesService.DefaultPageSize)
  {
  }

  /**
   * A sort chosen without an order reaches the engine as an ascending sort
   * on that key, starting from the first page.
   */
  lemma SortingReachesEngine(st: HookState, sortBy: string, cal: SalesService.Calendar)
    requires sortBy in {"date", "quantity", "customerName"}
    requires SalesService.Normalize(BuildRequest(UpdateSorting(st, sortBy, None)), cal).Success?
    ensures var c := SalesService.Normalize(BuildRequest(UpdateSorting(st, sortBy, None)), cal).value;
      && c.sort.Some? && c.sort.value.direction == Ordering.Ascending
      && c.page == 1
  {
    var st' := UpdateSorting(st, sortBy, None);
    RequestPageReadBack(st', cal);
  }

  /** The engine's accepted values for the dimension a list filter drives. */
  function CriteriaList(c: SalesService.Criteria, k: FilterKey): Option<seq<string>> {
    match k
    case CustomerRegion => c.regions
    case Gender => c.genders
    case ProductCategory => c.categories
    case Tags => c.tags
    case PaymentMethod => c.paymentMethods
    case _ => None
  }

  /** The selected values of a list filter, if any; none when the list is empty or missing. */
  function Selected(f: Filters, k: FilterKey): Option<seq<string>> {
    if k in f && f[k].Values? && |f[k].values| > 0 then Some(f[k].values) else None
  }

  /** The engine reads a list parameter back as the selected values. */
  lemma ListParamAccepted(f: Filters, k: FilterKey)
    ensures SalesService.Accepted(ListParam(f, k)) == Selected(f, k)
  {
  }

  /** How the engine reads each list parameter of a request. */
  lemma RequestLists(st: HookState, cal: SalesService.Calendar)
    ensures var n := SalesService.Normalize(BuildRequest(st), cal);
      var f := st.filters;
      n.Success? ==>
        && n.value.regions == SalesService.Accepted(ListParam(f, CustomerRegion))
        && n.value.genders == SalesService.Accepted(ListParam(f, Gender))
        && n.value.categories == SalesService.Accepted(ListParam(f, ProductCategory))
        && n.value.tags == SalesService.Accepted(ListParam(f, Tags))
        && n.value.paymentMethods == SalesService.Accepted(ListParam(f, PaymentMethod))
  {
  }

  /**
   * Each list filter reaches the engine under its own dimension: a
   * non-empty list is the set of accepted values, an empty or missing one
   * constrains nothing.
   */
  lemma ListFiltersReachEngine(st: HookState, cal: SalesService.Calendar, k: FilterKey)
    requires IsListKey(k)
    ensures var n := SalesService.Normalize(BuildRequest(st), cal);
      n.Success? ==>
        && (k in st.filters && st.filters[k].Values? && |st.filters[k].values| > 0 ==>
              CriteriaList(n.value, k) == Some(st.filters[k].values))
        && (!(k in st.filters && st.filters[k].Values? && |st.filters[k].values| > 0) ==>
              CriteriaList(n.value, k).None?)
  {
    var n := SalesService.Normalize(BuildRequest(st), cal);
    if n.Success? {
      assert CriteriaList(n.value, k) == SalesService.Accepted(ListParam(st.filters, k)) by {
        RequestLists(st, cal);
      }
      assert SalesService.Accepted(ListParam(st.filters, k)) == Selected(st.filters, k) by {
        ListParamAccepted(st.filters, k);
      }
    }
  }

  /** How the engine reads each text parameter of a request. */
  lemma RequestTexts(st: HookState, cal: SalesService.Calendar)
    ensures var n := SalesService.Normalize(BuildRequest(st), cal);
      var f := st.filters;
      n.Success? ==>
        && n.value.search == (if SalesService.Present(TextParam(f, Search)) then TextParam(f, Search) else None)
        && n.value.ageMin == SalesService.AgeBound(TextParam(f, AgeMin))
        && n.value.ageMax == SalesService.AgeBound(TextParam(f, AgeMax))
        && n.value.dateFrom == SalesService.DateBound(TextParam(f, DateStart), cal).value
        && (n.value.dateTo.Some? <==> SalesService.DateBound(TextParam(f, DateEnd), cal).value.Some?)
  {
  }

  /** A text filter goes on the wire as its text. */
  lemma TextParamOf(f: Filters, k: FilterKey)
    requires WellTyped(f) && !IsListKey(k)
    ensures TextParam(f, k) == Some(f[k].text)
  {
    assert k in f && (IsListKey(k) <==> f[k].Values?);
  }

  /**
   * The text filters reach the engine as typed: an empty search or age
   * bound constrains nothing, a non-empty search is searched for as is,
   * an age bound is read by `parseInt`, and a date bound is read as a date.
   */
  lemma TextFiltersReachEngine(st: HookState, cal: SalesService.Calendar)
    requires WellTyped(st.filters)
    ensures var n := SalesService.Normalize(BuildRequest(st), cal);
      var f := st.filters;
      n.Success? ==>
        && n.value.search == (if f[Search].text == "" then None else Some(f[Search].text))
        && n.value.ageMin == (if f[AgeMin].text == "" then None else Numbers.ParseInt(f[AgeMin].text))
        && n.value.ageMax == (if f[AgeMax].text == "" then None else Numbers.ParseInt(f[AgeMax].text))
        && n.value.dateFrom == (if f[DateStart].text == "" then None else cal.parseDate(f[DateStart].text))
        && (n.value.dateTo.Some? <==> f[DateEnd].text != "")
  {
    var f := st.filters;
    assert TextParam(f, Search) == Some(f[Search].text) && TextParam(f, AgeMin) == Some(f[AgeMin].text)
        && TextParam(f, AgeMax) == Some(f[AgeMax].text) && TextParam(f, DateStart) == Some(f[DateStart].text)
        && TextParam(f, DateEnd) == Some(f[DateEnd].text) by {
      TextParamOf(f, Search);
      TextParamOf(f, AgeMin);
      TextParamOf(f, AgeMax);
      TextParamOf(f, DateStart);
      TextParamOf(f, DateEnd);
    }
    RequestTexts(st, cal);
  }

  /** With no filter chosen, the request constrains nothing. */
  lemma InitialRequestUnfiltered(st: HookState)
    requires st.filters == InitialFilters()
    ensures var q := BuildRequest(st);
      && q.customerRegion.Absent? && q.gender.Absent? && q.productCategory.Absent?
      && q.tags.Absent? && q.paymentMethod.Absent?
      && q.search == Some("") && q.ageMin == Some("") && q.ageMax == Some("")
      && q.dateStart == Some("") && q.dateEnd == Some("")
  {
  }

  /** What a fetch delivers: a thrown error, or the (possibly empty) response body. */
  datatype Body = Body(data: Option<seq<Sale>>, pagination: Option<SalesService.PageInfo>)
  datatype Outcome = Threw(message: string) | Returned(body: Option<Body>)

  /**
   * The state a fetch leaves: a complete body is shown as is; an
   * incomplete body or an error empties the data and resets pagination,
   * and an error keeps its message (or a generic one when it has none).
   */
  function ApplyResponse(st: HookState, o: Outcome): (r: HookState)
    ensures r.filters == st.filters && r.sorting == st.sorting && r.currentPage == st.currentPage
  {
    match o
    case Threw(m) =>
      st.(data := [], pagination := EmptyPagination, error := Some(if m == "" then FetchFailed else m))
    case Returned(b) =>
      if b.Some? && b.value.data.Some? && b.value.pagination.Some? then
        st.(data := b.value.data.value, pagination := b.value.pagination.value, error := None)
      else
        st.(data := [], pagination := EmptyPagination, error := None)
  }

  /**
   * Only a body with both data and pagination is shown; any other outcome
   * leaves no data and the initial pagination, and the error is set
   * exactly when the fetch threw.
   */
  lemma ApplyResponseFallback(st: HookState, o: Outcome)
    ensures var r := ApplyResponse(st, o);
      var complete := o.Returned? && o.body.Some? && o.body.value.data.Some? && o.body.value.pagination.Some?;
      && (complete ==> r.data == o.body.value.data.value && r.pagination == o.body.value.pagination.value)
      && (!complete ==> r.data == [] && r.pagination == InitialState().pagination)
      && (r.error.Some? <==> o.Threw?)
      && (o.Threw? ==> r.error.value != "" && (o.message != "" ==> r.error.value == o.message))
  {
  }

  /**
   * A successful engine response is shown as is: the data and pagination
   * the engine computed for the request become the new state.
   */
  lemma EngineResponseShown(st: HookState, store: seq<Sale>, cal: SalesService.Calendar)
    ensures var res := SalesService.GetSalesData(store, BuildRequest(st), cal);
      res.Success? ==>
        var r := ApplyResponse(st, Returned(Some(Body(Some(res.value.data), Some(res.value.pagination)))));
        r.data == res.value.data && r.pagination == res.value.pagination && r.error.None?
  {
  }
}
