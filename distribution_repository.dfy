/** DistributionRepository: the listing of distribution revenues (the batches in
    which collected payments are passed on to their recipients) and of the payments
    in one batch. A table is a sequence of rows; a query is a function of the
    tables. */
module DistributionRepository {
  import opened Text
  import opened Linq
  import Currency

  datatype DistributionRevenue = DistributionRevenue(
    DistributionRevenueId: int,
    CreatedAt: int,
    DistributedDate: Option<int>,
    IsDistributed: bool,
    TotalSum: real,
    DistributionTypeId: int,
    IsFileGenerated: bool,
    FileName: string)

  datatype DistributionError = DistributionError(DistributionRevenueId: int, Error: string)

  function RevenueId(dr: DistributionRevenue): int {
    dr.DistributionRevenueId
  }

  // ---------------------------------------------------------------------------
  // GetWhereClause

  function CreatedFrom(startDate: int): DistributionRevenue -> bool {
    (dr: DistributionRevenue) => dr.CreatedAt >= startDate
  }

  function CreatedUntil(endDate: int): DistributionRevenue -> bool {
    (dr: DistributionRevenue) => dr.CreatedAt <= endDate
  }

  function OfType(distributionTypeId: int): DistributionRevenue -> bool {
    (dr: DistributionRevenue) => dr.DistributionTypeId == distributionTypeId
  }

  function WithId(distributionRevenueId: int): DistributionRevenue -> bool {
    (dr: DistributionRevenue) => dr.DistributionRevenueId == distributionRevenueId
  }

  /** GetWhereClause: one Where per filter that is supplied. */
  function GetWhereClause(query: seq<DistributionRevenue>, startDate: Option<int>, endDate: Option<int>,
                          distributionTypeId: Option<int>, distributionRevenueId: Option<int>): seq<DistributionRevenue>
  {
    var q1 := if startDate.Some? then Where(query, CreatedFrom(startDate.value)) else query;
    var q2 := if endDate.Some? then Where(q1, CreatedUntil(endDate.value)) else q1;
    var q3 := if distributionTypeId.Some? then Where(q2, OfType(distributionTypeId.value)) else q2;
    if distributionRevenueId.Some? then Where(q3, WithId(distributionRevenueId.value)) else q3
  }

  /** What a revenue must satisfy to pass the filters. */
  predicate MatchesRevenueFilter(startDate: Option<int>, endDate: Option<int>, distributionTypeId: Option<int>,
                                 distributionRevenueId: Option<int>, dr: DistributionRevenue)
  {
    && (startDate.None? || dr.CreatedAt >= startDate.value)
    && (endDate.None? || dr.CreatedAt <= endDate.value)
    && (distributionTypeId.None? || dr.DistributionTypeId == distributionTypeId.value)
    && (distributionRevenueId.None? || dr.DistributionRevenueId == distributionRevenueId.value)
  }

  function RevenueFilter(startDate: Option<int>, endDate: Option<int>, distributionTypeId: Option<int>,
                         distributionRevenueId: Option<int>): DistributionRevenue -> bool
  {
    (dr: DistributionRevenue) => MatchesRevenueFilter(startDate, endDate, distributionTypeId, distributionRevenueId, dr)
  }

  /** The chained Where clauses keep exactly the revenues created within the inclusive
      bounds and of the requested type and id, in their original order; a filter that
      is not supplied keeps everything. */
  lemma WhereClauseMeaning(query: seq<DistributionRevenue>, startDate: Option<int>, endDate: Option<int>,
                           distributionTypeId: Option<int>, distributionRevenueId: Option<int>)
    ensures GetWhereClause(query, startDate, endDate, distributionTypeId, distributionRevenueId)
         == Where(query, RevenueFilter(startDate, endDate, distributionTypeId, distributionRevenueId))
  {
    var p0 := RevenueFilter(None, None, None, None);
    var p1 := RevenueFilter(startDate, None, None, None);
    var p2 := RevenueFilter(startDate, endDate, None, None);
    var p3 := RevenueFilter(startDate, endDate, distributionTypeId, None);
    var p4 := RevenueFilter(startDate, endDate, distributionTypeId, distributionRevenueId);
    var q1 := if startDate.Some? then Where(query, CreatedFrom(startDate.value)) else query;
    var q2 := if endDate.Some? then Where(q1, CreatedUntil(endDate.value)) else q1;
    var q3 := if distributionTypeId.Some? then Where(q2, OfType(distributionTypeId.value)) else q2;
    WhereAll(query, p0);
    FilterStep(query, query, p0, p1, startDate.Some?, CreatedFrom(if startDate.Some? then startDate.value else 0));
    FilterStep(query, q1, p1, p2, endDate.Some?, CreatedUntil(if endDate.Some? then endDate.value else 0));
    FilterStep(query, q2, p2, p3, distributionTypeId.Some?,
               OfType(if distributionTypeId.Some? then distributionTypeId.value else 0));
    FilterStep(query, q3, p3, p4, distributionRevenueId.Some?,
               WithId(if distributionRevenueId.Some? then distributionRevenueId.value else 0));
  }

  /** One link of the chain: a query equal to Where(query, p), filtered by c when that
      filter is supplied, is Where(query, p') for p' the conjunction of p and c, or p
      itself when the filter is not supplied. */
  lemma FilterStep(query: seq<DistributionRevenue>, q: seq<DistributionRevenue>,
                   p: DistributionRevenue -> bool, p': DistributionRevenue -> bool,
                   on: bool, c: DistributionRevenue -> bool)
    requires q == Where(query, p)
    requires on ==> forall dr :: p'(dr) == (p(dr) && c(dr))
    requires !on ==> forall dr :: p'(dr) == p(dr)
    ensures (if on then Where(q, c) else q) == Where(query, p')
  {
    if on {
      WhereWhere(query, p, c);
      WhereSame(query, (dr: DistributionRevenue) => p(dr) && c(dr), p');
    } else {
      WhereSame(query, p, p');
    }
  }

  function CountDistributionRevenues(table: seq<DistributionRevenue>, startDate: Option<int>, endDate: Option<int>,
                                     distributionTypeId: Option<int>): int
  {
    |GetWhereClause(table, startDate, endDate, distributionTypeId, None)|
  }

  // ---------------------------------------------------------------------------
  // SortClause

  /** The amount a revenue is ordered by when no known column is named: its euro value. */
  function TotalSumInEuro(s: Currency.Settings, dr: DistributionRevenue): real {
    if dr.CreatedAt < s.euroAcceptanceDate then dr.TotalSum / s.bgnToEuroRate else dr.TotalSum
  }

  function BoolKey(b: bool): SortKey {
    Num(if b then 1.0 else 0.0)
  }

  /** The column SortClause orders by: a named one, or the euro value of TotalSum for
      any other name. */
  function RevenueSortKey(s: Currency.Settings, sortByPropertyName: string): DistributionRevenue -> SortKey {
    if sortByPropertyName == "CreatedAt" then (dr: DistributionRevenue) => Num(dr.CreatedAt as real)
    else if sortByPropertyName == "DistributedDate" then
      (dr: DistributionRevenue) => if dr.DistributedDate.None? then Null else Num(dr.DistributedDate.value as real)
    else if sortByPropertyName == "IsDistributed" then (dr: DistributionRevenue) => BoolKey(dr.IsDistributed)
    else if sortByPropertyName == "IsFileGenerated" then (dr: DistributionRevenue) => BoolKey(dr.IsFileGenerated)
    else if sortByPropertyName == "FileName" then (dr: DistributionRevenue) => Text(dr.FileName)
    else (dr: DistributionRevenue) => Num(TotalSumInEuro(s, dr))
  }

  /** SortClause: OrderBy on the column, or OrderByDescending when isDescending is set. */
  function SortClause(s: Currency.Settings, query: seq<DistributionRevenue>, sortByPropertyName: string,
                      isDescending: bool): (r: seq<DistributionRevenue>)
    ensures multiset(r) == multiset(query)
    ensures SortedBy(r, RevenueSortKey(s, sortByPropertyName), isDescending)
  {
    OrderBy(query, RevenueSortKey(s, sortByPropertyName), isDescending)
  }

  /** For a name that is not a column, revenues come in order of their euro value,
      increasing unless isDescending is set and then decreasing; a revenue created
      before the acceptance date counts its lev total converted to euro. */
  lemma SortClauseDefaultsToEuroTotal(s: Currency.Settings, query: seq<DistributionRevenue>,
                                      sortByPropertyName: string, isDescending: bool)
    requires sortByPropertyName !in {"CreatedAt", "DistributedDate", "IsDistributed", "IsFileGenerated", "FileName"}
    ensures var r := SortClause(s, query, sortByPropertyName, isDescending);
            forall i, j :: 0 <= i < j < |r| ==>
              var a := Currency.GetEuroValue(s, r[i].TotalSum, r[i].CreatedAt);
              var b := Currency.GetEuroValue(s, r[j].TotalSum, r[j].CreatedAt);
              if isDescending then a >= b else a <= b
  {
    var r := SortClause(s, query, sortByPropertyName, isDescending);
    var key := RevenueSortKey(s, sortByPropertyName);
    forall i, j | 0 <= i < j < |r|
      ensures var a := Currency.GetEuroValue(s, r[i].TotalSum, r[i].CreatedAt);
              var b := Currency.GetEuroValue(s, r[j].TotalSum, r[j].CreatedAt);
              if isDescending then a >= b else a <= b
    {
      assert Precedes(key(r[i]), key(r[j]), isDescending);
    }
  }

  /** Sorting by IsDistributed in increasing order puts the revenues not yet
      distributed first. */
  lemma UndistributedFirst(s: Currency.Settings, query: seq<DistributionRevenue>)
    ensures var r := SortClause(s, query, "IsDistributed", false);
            forall i, j :: 0 <= i < j < |r| && r[i].IsDistributed ==> r[j].IsDistributed
  {
    var r := SortClause(s, query, "IsDistributed", false);
    forall i, j | 0 <= i < j < |r| && r[i].IsDistributed ensures r[j].IsDistributed {
      assert KeyLe(BoolKey(r[i].IsDistributed), BoolKey(r[j].IsDistributed));
    }
  }

  // ---------------------------------------------------------------------------
  // GetDistributionRevenues

  /** DistributionRevenueVO */
  datatype DistributionRevenueVO = DistributionRevenueVO(
    DistributionRevenueId: int,
    CreatedAt: int,
    DistributedDate: Option<int>,
    IsDistributed: bool,
    TotalSum: real,
    DistributionType: int,
    IsFileGenerated: bool,
    FileName: string,
    Errors: seq<string>)

  function VOId(vo: DistributionRevenueVO): int {
    vo.DistributionRevenueId
  }

  function ErrorRevenueId(e: DistributionError): int {
    e.DistributionRevenueId
  }

  function ErrorText(e: DistributionError): string {
    e.Error
  }

  function BelongsTo(id: int): DistributionError -> bool {
    (e: DistributionError) => e.DistributionRevenueId == id
  }

  /** The texts of the errors of one revenue, in table order. */
  function ErrorTexts(errors: seq<DistributionError>, id: int): seq<string> {
    Select(Where(errors, BelongsTo(id)), ErrorText)
  }

  /** `errors.GroupBy(e => e.DistributionRevenueId).ToDictionary(g => g.Key, g => g.Select(e => e.Error).ToList())`,
      built one error at a time. */
  function GroupErrors(errors: seq<DistributionError>): (m: map<int, seq<string>>)
    ensures forall id :: id in m <==> exists e :: e in errors && e.DistributionRevenueId == id
  {
    if errors == [] then map[]
    else
      var m := GroupErrors(errors[..|errors| - 1]);
      var e := errors[|errors| - 1];
      assert errors == errors[..|errors| - 1] + [e];
      m[e.DistributionRevenueId := (if e.DistributionRevenueId in m then m[e.DistributionRevenueId] else []) + [e.Error]]
  }

  /** `ContainsKey(id) ? dict[id] : new List<string>()` */
  function ErrorsOf(m: map<int, seq<string>>, id: int): seq<string> {
    if id in m then m[id] else []
  }

  /** Looking a revenue up in the grouped errors gives the texts of exactly its errors,
      in table order, and no texts when it has none. */
  lemma {:induction false} GroupedErrorsAreErrorTexts(errors: seq<DistributionError>, id: int)
    ensures ErrorsOf(GroupErrors(errors), id) == ErrorTexts(errors, id)
    decreases |errors|
  {
    if errors != [] {
      var init := errors[..|errors| - 1];
      var e := errors[|errors| - 1];
      assert errors == init + [e];
      GroupedErrorsAreErrorTexts(init, id);
      GroupErrorsSnoc(init, e, id);
      ErrorTextsSnoc(init, e, id);
    }
  }

  /** One more error adds its text to its own revenue's group only. */
  lemma GroupErrorsSnoc(init: seq<DistributionError>, e: DistributionError, id: int)
    ensures ErrorsOf(GroupErrors(init + [e]), id)
         == ErrorsOf(GroupErrors(init), id) + (if e.DistributionRevenueId == id then [e.Error] else [])
  {
    assert (init + [e])[..|init + [e]| - 1] == init;
  }

  lemma ErrorTextsSnoc(init: seq<DistributionError>, e: DistributionError, id: int)
    ensures ErrorTexts(init + [e], id) == ErrorTexts(init, id) + (if e.DistributionRevenueId == id then [e.Error] else [])
  {
    WhereAppend(init, [e], BelongsTo(id));
    SelectAppend(Where(init, BelongsTo(id)), Where([e], BelongsTo(id)), ErrorText);
    assert Where([e], BelongsTo(id)) == if e.DistributionRevenueId == id then [e] else [] by {
      assert [e][1..] == [];
    }
  }

  /** The revenue with its error texts, as a view object. */
  function ToVO(dr: DistributionRevenue, errors: seq<string>): (vo: DistributionRevenueVO)
    ensures VOId(vo) == RevenueId(dr) && vo.Errors == errors
  {
    DistributionRevenueVO(dr.DistributionRevenueId, dr.CreatedAt, dr.DistributedDate, dr.IsDistributed,
                          dr.TotalSum, dr.DistributionTypeId, dr.IsFileGenerated, dr.FileName, errors)
  }

  /** The filtered, sorted revenues whose ids are paged. */
  function RevenuesSorted(s: Currency.Settings, table: seq<DistributionRevenue>, startDate: Option<int>,
                          endDate: Option<int>, distributionTypeId: Option<int>, distributionRevenueId: Option<int>,
                          sortByPropertyName: string, isDescending: bool): seq<DistributionRevenue>
  {
    SortClause(s, GetWhereClause(table, startDate, endDate, distributionTypeId, distributionRevenueId),
               sortByPropertyName, isDescending)
  }

  /** A revenue as a view object with its errors looked up in the grouped errors. */
  function WithErrors(errorsByRevenueId: map<int, seq<string>>): DistributionRevenue -> DistributionRevenueVO {
    (dr: DistributionRevenue) => ToVO(dr, ErrorsOf(errorsByRevenueId, dr.DistributionRevenueId))
  }

  /** A revenue as a view object with the texts of its errors in the error table. */
  function WithErrorTexts(errorTable: seq<DistributionError>): DistributionRevenue -> DistributionRevenueVO {
    (dr: DistributionRevenue) => ToVO(dr, ErrorTexts(errorTable, dr.DistributionRevenueId))
  }

  /** The second half of GetDistributionRevenues: the revenues and the errors with the
      paged ids, fetched again; the errors grouped by revenue; each revenue with its
      error texts, ordered by the position of its id in the page. */
  function AssemblePage(table: seq<DistributionRevenue>, errorTable: seq<DistributionError>,
                        pagedRevenueIds: seq<int>): seq<DistributionRevenueVO>
  {
    var revenues := Where(table, IdIn(pagedRevenueIds, RevenueId));
    var errors := Where(errorTable, IdIn(pagedRevenueIds, ErrorRevenueId));
    var errorsByRevenueId := GroupErrors(errors);
    OrderByPosition(Select(revenues, WithErrors(errorsByRevenueId)), pagedRevenueIds, VOId)
  }

  /** GetDistributionRevenues: the ids of one page of the sorted revenues, assembled. */
  function GetDistributionRevenues(s: Currency.Settings, table: seq<DistributionRevenue>,
                                   errorTable: seq<DistributionError>, currentPage: int, pageLength: int,
                                   startDate: Option<int>, endDate: Option<int>, distributionTypeId: Option<int>,
                                   distributionRevenueId: Option<int>, sortByPropertyName: string,
                                   isDescending: bool): seq<DistributionRevenueVO>
  {
    var baseQuery := RevenuesSorted(s, table, startDate, endDate, distributionTypeId, distributionRevenueId,
                                    sortByPropertyName, isDescending);
    var pagedRevenueIds := Page(Select(baseQuery, RevenueId), currentPage, pageLength);
    AssemblePage(table, errorTable, pagedRevenueIds)
  }

  /** In a table keyed by DistributionRevenueId, the result is the page itself: the
      revenues at positions (currentPage - 1) * pageLength on of the sorted list, at most
      pageLength of them, in that order, each with the texts of exactly its own errors. */
  lemma RevenuesAreThePage(s: Currency.Settings, table: seq<DistributionRevenue>,
                           errorTable: seq<DistributionError>, currentPage: int, pageLength: int,
                           startDate: Option<int>, endDate: Option<int>, distributionTypeId: Option<int>,
                           distributionRevenueId: Option<int>, sortByPropertyName: string, isDescending: bool)
    requires KeysDistinct(table, RevenueId) && currentPage >= 1 && pageLength >= 0
    ensures var r := GetDistributionRevenues(s, table, errorTable, currentPage, pageLength, startDate, endDate,
                                             distributionTypeId, distributionRevenueId, sortByPropertyName, isDescending);
            var sorted := RevenuesSorted(s, table, startDate, endDate, distributionTypeId, distributionRevenueId,
                                         sortByPropertyName, isDescending);
            && |r| <= pageLength
            && r == Select(Page(sorted, currentPage, pageLength), WithErrorTexts(errorTable))
  {
    var sorted := RevenuesSorted(s, table, startDate, endDate, distributionTypeId, distributionRevenueId,
                                 sortByPropertyName, isDescending);
    PageOfSelect(sorted, RevenueId, currentPage, pageLength);
    PageWindow(sorted, currentPage, pageLength);
    PageIsPartOfTable(s, table, startDate, endDate, distributionTypeId, distributionRevenueId,
                      sortByPropertyName, isDescending, currentPage, pageLength);
    AssembledPage(table, errorTable, Page(sorted, currentPage, pageLength));
  }

  /** Assembling the ids of rows of a table keyed by id gives those rows, in their
      order, each with the texts of exactly its own errors. */
  lemma AssembledPage(table: seq<DistributionRevenue>, errorTable: seq<DistributionError>, pg: seq<DistributionRevenue>)
    requires KeysDistinct(table, RevenueId) && multiset(pg) <= multiset(table)
    ensures AssemblePage(table, errorTable, Select(pg, RevenueId)) == Select(pg, WithErrorTexts(errorTable))
  {
    var ids := Select(pg, RevenueId);
    var m := GroupErrors(Where(errorTable, IdIn(ids, ErrorRevenueId)));
    RefetchedVOs(table, pg, WithErrors(m));
    forall k | 0 <= k < |pg| ensures WithErrors(m)(pg[k]) == WithErrorTexts(errorTable)(pg[k]) {
      assert ids[k] == pg[k].DistributionRevenueId;
      PagedErrors(errorTable, ids, k);
    }
  }

  /** The page is part of the table. */
  lemma PageIsPartOfTable(s: Currency.Settings, table: seq<DistributionRevenue>, startDate: Option<int>,
                          endDate: Option<int>, distributionTypeId: Option<int>, distributionRevenueId: Option<int>,
                          sortByPropertyName: string, isDescending: bool, currentPage: int, pageLength: int)
    ensures multiset(Page(RevenuesSorted(s, table, startDate, endDate, distributionTypeId, distributionRevenueId,
                                         sortByPropertyName, isDescending), currentPage, pageLength))
         <= multiset(table)
  {
    var filtered := GetWhereClause(table, startDate, endDate, distributionTypeId, distributionRevenueId);
    WhereClauseMeaning(table, startDate, endDate, distributionTypeId, distributionRevenueId);
    WhereSubMultiset(table, RevenueFilter(startDate, endDate, distributionTypeId, distributionRevenueId));
    PageSubMultiset(SortClause(s, filtered, sortByPropertyName, isDescending), currentPage, pageLength);
  }

  /** The error texts of a paged revenue found among the errors fetched for the page
      are all its error texts. */
  lemma PagedErrors(errorTable: seq<DistributionError>, ids: seq<int>, k: int)
    requires 0 <= k < |ids|
    ensures ErrorsOf(GroupErrors(Where(errorTable, IdIn(ids, ErrorRevenueId))), ids[k]) == ErrorTexts(errorTable, ids[k])
  {
    GroupedErrorsAreErrorTexts(Where(errorTable, IdIn(ids, ErrorRevenueId)), ids[k]);
    WhereNarrowed(errorTable, IdIn(ids, ErrorRevenueId), BelongsTo(ids[k]));
  }

  /** Mapping the re-fetched rows of a page to view objects keyed by the same id and
      ordering them by the page's ids gives the page mapped to view objects. */
  lemma RefetchedVOs(table: seq<DistributionRevenue>, pg: seq<DistributionRevenue>,
                     toVO: DistributionRevenue -> DistributionRevenueVO)
    requires KeysDistinct(table, RevenueId) && multiset(pg) <= multiset(table)
    requires forall dr :: VOId(toVO(dr)) == RevenueId(dr)
    ensures var ids := Select(pg, RevenueId);
            OrderByPosition(Select(Where(table, IdIn(ids, RevenueId)), toVO), ids, VOId) == Select(pg, toVO)
  {
    var ids := Select(pg, RevenueId);
    MappedPageIsPartOfTable(table, pg, toVO);
    assert Select(Select(pg, toVO), VOId) == ids;
    WhereSelect(table, toVO, IdIn(ids, VOId), IdIn(ids, RevenueId));
    RefetchedPage(Select(table, toVO), Select(pg, toVO), VOId);
  }

  /** Rows of a table keyed by id, mapped to view objects keyed by the same id, are
      part of the mapped table, which is keyed by id as well. */
  lemma MappedPageIsPartOfTable(table: seq<DistributionRevenue>, pg: seq<DistributionRevenue>,
                                toVO: DistributionRevenue -> DistributionRevenueVO)
    requires KeysDistinct(table, RevenueId) && multiset(pg) <= multiset(table)
    requires forall dr :: VOId(toVO(dr)) == RevenueId(dr)
    ensures KeysDistinct(Select(table, toVO), VOId)
    ensures multiset(Select(pg, toVO)) <= multiset(Select(table, toVO))
  {
    var vt := Select(table, toVO);
    var vp := Select(pg, toVO);
    SubKeysDistinct(pg, table, RevenueId);
    assert KeysDistinct(vp, VOId);
    forall x | x in vp ensures x in vt {
      var i :| 0 <= i < |vp| && vp[i] == x;
      assert pg[i] in multiset(table);
      var j :| 0 <= j < |table| && table[j] == pg[i];
      assert vt[j] == x;
    }
    DistinctSubMultiset(vp, vt);
  }

  // ---------------------------------------------------------------------------
  // The payments of one distribution

  /** The payment request a distributed payment belongs to, with its client's name. */
  datatype PaymentRequest = PaymentRequest(
    PaymentRequestIdentifier: string,
    PaymentReason: string,
    PaymentAmount: real,
    EserviceClientAisName: string,
    ApplicantName: string,
    PaymentRequestStatusId: int,
    ObligationStatusId: int)

  /** DistributionRevenuePayment: a payment request assigned to a distribution and to
      the client that receives it. */
  datatype DistributionRevenuePayment = DistributionRevenuePayment(
    DistributionRevenueId: int,
    PaymentRequest: PaymentRequest,
    EserviceClientAisName: string)

  /** The column SortPaymentsClause orders by, if `sortByPropertyName` names one. */
  function PaymentSortKey(sortByPropertyName: string): Option<DistributionRevenuePayment -> SortKey> {
    if sortByPropertyName == "PaymentRequestIdentifier" then
      Some((drp: DistributionRevenuePayment) => Text(drp.PaymentRequest.PaymentRequestIdentifier))
    else if sortByPropertyName == "PaymentReason" then
      Some((drp: DistributionRevenuePayment) => Text(drp.PaymentRequest.PaymentReason))
    else if sortByPropertyName == "PaymentAmount" then
      Some((drp: DistributionRevenuePayment) => Num(drp.PaymentRequest.PaymentAmount))
    else if sortByPropertyName == "EServiceClientName" then
      Some((drp: DistributionRevenuePayment) => Text(drp.PaymentRequest.EserviceClientAisName))
    else if sortByPropertyName == "TargetEServiceClientName" then
      Some((drp: DistributionRevenuePayment) => Text(drp.EserviceClientAisName))
    else if sortByPropertyName == "ApplicantName" then
      Some((drp: DistributionRevenuePayment) => Text(drp.PaymentRequest.ApplicantName))
    else if sortByPropertyName == "PaymentRequestStatus" then
      Some((drp: DistributionRevenuePayment) => Num(drp.PaymentRequest.PaymentRequestStatusId as real))
    else if sortByPropertyName == "ObligationStatus" then
      Some((drp: DistributionRevenuePayment) => Num(drp.PaymentRequest.ObligationStatusId as real))
    else None
  }

  /** SortPaymentsClause */
  function SortPaymentsClause(query: seq<DistributionRevenuePayment>, sortByPropertyName: string,
                              isDescending: bool): (r: seq<DistributionRevenuePayment>)
    ensures multiset(r) == multiset(query)
  {
    match PaymentSortKey(sortByPropertyName)
    case None => query
    case Some(key) => OrderBy(query, key, isDescending)
  }

  /** An unknown name leaves the order as it is; a known one sorts by its column, in
      decreasing order when isDescending is set. */
  lemma SortPaymentsClauseOrder(query: seq<DistributionRevenuePayment>, sortByPropertyName: string, isDescending: bool)
    ensures PaymentSortKey(sortByPropertyName).None? ==> SortPaymentsClause(query, sortByPropertyName, isDescending) == query
    ensures PaymentSortKey(sortByPropertyName).Some? ==>
      SortedBy(SortPaymentsClause(query, sortByPropertyName, isDescending), PaymentSortKey(sortByPropertyName).value,
               isDescending)
    ensures sortByPropertyName == "PaymentAmount" ==>
      var r := SortPaymentsClause(query, sortByPropertyName, isDescending);
      forall i, j :: 0 <= i < j < |r| ==>
        if isDescending then r[i].PaymentRequest.PaymentAmount >= r[j].PaymentRequest.PaymentAmount
        else r[i].PaymentRequest.PaymentAmount <= r[j].PaymentRequest.PaymentAmount
  {
    if sortByPropertyName == "PaymentAmount" {
      var r := SortPaymentsClause(query, sortByPropertyName, isDescending);
      var key := PaymentSortKey(sortByPropertyName).value;
      forall i, j | 0 <= i < j < |r|
        ensures if isDescending then r[i].PaymentRequest.PaymentAmount >= r[j].PaymentRequest.PaymentAmount
                else r[i].PaymentRequest.PaymentAmount <= r[j].PaymentRequest.PaymentAmount
      {
        assert Precedes(key(r[i]), key(r[j]), isDescending);
      }
    }
  }

  function InDistribution(id: int): DistributionRevenuePayment -> bool {
    (drp: DistributionRevenuePayment) => drp.DistributionRevenueId == id
  }

  /** GetDistributionPaymentRequests: the payments of one distribution, sorted. */
  function GetDistributionPaymentRequests(payments: seq<DistributionRevenuePayment>, id: int,
                                          sortByPropertyName: string, isDescending: bool): seq<DistributionRevenuePayment>
  {
    SortPaymentsClause(Where(payments, InDistribution(id)), sortByPropertyName, isDescending)
  }

  /** GetAllDistributionPaymentRequests: the same, at most takeCount of them. */
  function GetAllDistributionPaymentRequests(payments: seq<DistributionRevenuePayment>, id: int,
                                             sortByPropertyName: string, isDescending: bool,
                                             takeCount: int): seq<DistributionRevenuePayment>
  {
    Take(SortPaymentsClause(Where(payments, InDistribution(id)), sortByPropertyName, isDescending), takeCount)
  }

  function CountDistributionPaymentRequests(payments: seq<DistributionRevenuePayment>, id: int): int {
    |Where(payments, InDistribution(id))|
  }

  /** The listed payments are exactly the payments of the distribution, as many as the
      count, each as often as in the table; the full listing with takeCount at least
      the count is the same list, and a smaller takeCount keeps its first rows. */
  lemma DistributionPaymentsListing(payments: seq<DistributionRevenuePayment>, id: int,
                                    sortByPropertyName: string, isDescending: bool, takeCount: int)
    ensures var r := GetDistributionPaymentRequests(payments, id, sortByPropertyName, isDescending);
            && |r| == CountDistributionPaymentRequests(payments, id)
            && (forall drp :: drp in r <==> drp in payments && drp.DistributionRevenueId == id)
            && (forall drp: DistributionRevenuePayment :: drp.DistributionRevenueId == id ==> multiset(r)[drp] == multiset(payments)[drp])
    ensures var r := GetDistributionPaymentRequests(payments, id, sortByPropertyName, isDescending);
            var t := GetAllDistributionPaymentRequests(payments, id, sortByPropertyName, isDescending, takeCount);
            (takeCount >= |r| ==> t == r) && (0 <= takeCount <= |r| ==> t == r[..takeCount])
  {
    var w := Where(payments, InDistribution(id));
    var r := GetDistributionPaymentRequests(payments, id, sortByPropertyName, isDescending);
    assert |multiset(r)| == |multiset(w)|;
    forall drp | drp in r ensures drp in w {
      assert drp in multiset(r);
    }
    forall drp | drp in w ensures drp in r {
      assert drp in multiset(w);
    }
    forall drp: DistributionRevenuePayment | drp.DistributionRevenueId == id ensures multiset(r)[drp] == multiset(payments)[drp] {
      WhereCountOfPassing(payments, InDistribution(id), drp);
    }
  }
}
