/** EquationControlsRepository: the filters, orderings and pages of the payment
    requests and card (Borica) transactions shown in the administration's
    reconciliation screens. A table is a sequence of rows; a query is a function of
    the table. The mapping of rows to view objects is not part of this model: a
    query returns the rows themselves. */
module EquationControlsRepository {
  import opened Text
  import opened Linq
  import Currency

  datatype PaymentRequest = PaymentRequest(
    PaymentRequestId: int,
    PaymentRequestIdentifier: string,
    PaymentRequestStatusChangeTime: int,
    CreateDate: int,
    PaymentAmount: real,
    ServiceProviderName: string,
    PaymentReason: string,
    ObligationStatusId: int)

  function PaymentRequestId(e: PaymentRequest): int {
    e.PaymentRequestId
  }

  /** The filters of the undistributed-payments screen; an absent or blank one is off. */
  datatype PaymentFilter = PaymentFilter(
    paymentIdentifier: string,
    dateFrom: Option<int>,
    dateTo: Option<int>,
    amountFrom: Option<real>,
    amountTo: Option<real>,
    serviceProvider: string,
    paymentReason: string,
    obligationStatus: Option<int>)

  const NoPaymentFilter := PaymentFilter([], None, None, None, None, [], [], None)

  /** Inclusive bounds, each present or not. */
  predicate InRange(d: int, from: Option<int>, to: Option<int>) {
    (from.None? || from.value <= d) && (to.None? || d <= to.value)
  }

  /** The amount in the currency of the period `now` lies in: in the euro period a
      request created before the acceptance date is divided by the rate; before it, a
      request created after the acceptance date is multiplied by it. */
  function AmountInPeriodCurrency(s: Currency.Settings, now: int, e: PaymentRequest): real {
    if Currency.IsEuroTimePeriod(s, now) then
      (if e.CreateDate < s.euroAcceptanceDate then e.PaymentAmount / s.bgnToEuroRate else e.PaymentAmount)
    else
      (if e.CreateDate > s.euroAcceptanceDate then e.PaymentAmount * s.bgnToEuroRate else e.PaymentAmount)
  }

  /** In the euro period the normalised amount is the euro value; before it, the lev
      value of every request not created on the acceptance date itself, and the plain
      amount of every request created by `now`. */
  lemma AmountNormalisation(s: Currency.Settings, now: int, e: PaymentRequest)
    ensures Currency.IsEuroTimePeriod(s, now) ==>
      AmountInPeriodCurrency(s, now, e) == Currency.GetEuroValue(s, e.PaymentAmount, e.CreateDate)
    ensures !Currency.IsEuroTimePeriod(s, now) && e.CreateDate != s.euroAcceptanceDate ==>
      AmountInPeriodCurrency(s, now, e) == Currency.GetBgnValue(s, e.PaymentAmount, e.CreateDate)
    ensures !Currency.IsEuroTimePeriod(s, now) && e.CreateDate <= now ==>
      AmountInPeriodCurrency(s, now, e) == e.PaymentAmount
  {
  }

  /** CreatePaymentRequestPredicate: one clause added per filter that is on.
      AndStringContains is not part of this model: `contains` is its test. */
  function CreatePaymentRequestPredicate(s: Currency.Settings, now: int, contains: (string, string) -> bool,
                                         f: PaymentFilter): PaymentRequest -> bool
  {
    var p0 := PredicateTrue<PaymentRequest>();
    var p1 := if !IsBlank(f.paymentIdentifier)
      then And(p0, (e: PaymentRequest) => e.PaymentRequestIdentifier == f.paymentIdentifier) else p0;
    var p2 := if f.dateFrom.Some?
      then And(p1, (e: PaymentRequest) => e.PaymentRequestStatusChangeTime >= f.dateFrom.value) else p1;
    var p3 := if f.dateTo.Some?
      then And(p2, (e: PaymentRequest) => e.PaymentRequestStatusChangeTime <= f.dateTo.value) else p2;
    var p4 := if f.amountFrom.Some?
      then And(p3, (e: PaymentRequest) => AmountInPeriodCurrency(s, now, e) >= f.amountFrom.value) else p3;
    var p5 := if f.amountTo.Some?
      then And(p4, (e: PaymentRequest) => AmountInPeriodCurrency(s, now, e) <= f.amountTo.value) else p4;
    var p6 := if !IsBlank(f.serviceProvider)
      then And(p5, (e: PaymentRequest) => contains(e.ServiceProviderName, f.serviceProvider)) else p5;
    var p7 := if !IsBlank(f.paymentReason)
      then And(p6, (e: PaymentRequest) => contains(e.PaymentReason, f.paymentReason)) else p6;
    if f.obligationStatus.Some?
      then And(p7, (e: PaymentRequest) => e.ObligationStatusId == f.obligationStatus.value) else p7
  }

  /** What a request must satisfy to pass the filters. */
  predicate MatchesPaymentFilter(s: Currency.Settings, now: int, contains: (string, string) -> bool,
                                 f: PaymentFilter, e: PaymentRequest)
  {
    && (IsBlank(f.paymentIdentifier) || e.PaymentRequestIdentifier == f.paymentIdentifier)
    && InRange(e.PaymentRequestStatusChangeTime, f.dateFrom, f.dateTo)
    && (f.amountFrom.None? || AmountInPeriodCurrency(s, now, e) >= f.amountFrom.value)
    && (f.amountTo.None? || AmountInPeriodCurrency(s, now, e) <= f.amountTo.value)
    && (IsBlank(f.serviceProvider) || contains(e.ServiceProviderName, f.serviceProvider))
    && (IsBlank(f.paymentReason) || contains(e.PaymentReason, f.paymentReason))
    && (f.obligationStatus.None? || e.ObligationStatusId == f.obligationStatus.value)
  }

  /** The composed predicate accepts a request exactly when every filter that is on
      accepts it: the identifier exactly, the dates as inclusive bounds, the amounts
      after normalisation. */
  lemma PaymentPredicateMeaning(s: Currency.Settings, now: int, contains: (string, string) -> bool,
                                f: PaymentFilter, e: PaymentRequest)
    ensures CreatePaymentRequestPredicate(s, now, contains, f)(e) <==> MatchesPaymentFilter(s, now, contains, f, e)
  {
  }

  /** With no filter on, every request passes. */
  lemma NoPaymentFilterKeepsAll(s: Currency.Settings, now: int, contains: (string, string) -> bool,
                                rows: seq<PaymentRequest>)
    ensures Where(rows, CreatePaymentRequestPredicate(s, now, contains, NoPaymentFilter)) == rows
  {
    forall e | e in rows ensures CreatePaymentRequestPredicate(s, now, contains, NoPaymentFilter)(e) {
      PaymentPredicateMeaning(s, now, contains, NoPaymentFilter, e);
    }
    WhereAll(rows, CreatePaymentRequestPredicate(s, now, contains, NoPaymentFilter));
  }

  // ---------------------------------------------------------------------------
  // SortPaymentRequests

  /** The column `sortBy` names, if it is one of the sortable ones. The amount is
      ordered by its euro value. */
  function PaymentSortKey(s: Currency.Settings, sortBy: string): Option<PaymentRequest -> SortKey> {
    if sortBy == "CreateDate" then Some((e: PaymentRequest) => Num(e.CreateDate as real))
    else if sortBy == "PaymentRequestIdentifier" then Some((e: PaymentRequest) => Text(e.PaymentRequestIdentifier))
    else if sortBy == "ServiceProviderName" then Some((e: PaymentRequest) => Text(e.ServiceProviderName))
    else if sortBy == "PaymentReason" then Some((e: PaymentRequest) => Text(e.PaymentReason))
    else if sortBy == "PaymentAmount" then
      Some((e: PaymentRequest) =>
        Num(if e.CreateDate < s.euroAcceptanceDate then e.PaymentAmount / s.bgnToEuroRate else e.PaymentAmount))
    else if sortBy == "ObligationStatusId" then Some((e: PaymentRequest) => Num(e.ObligationStatusId as real))
    else None
  }

  /** SortPaymentRequests; its flag set means ascending. */
  function SortPaymentRequests(s: Currency.Settings, rows: seq<PaymentRequest>, sortBy: string,
                               sortAscending: bool): (r: seq<PaymentRequest>)
    ensures multiset(r) == multiset(rows)
  {
    match PaymentSortKey(s, sortBy)
    case None => rows
    case Some(key) => OrderBy(rows, key, !sortAscending)
  }

  /** An unknown column leaves the order as it is; a known one sorts by it, ascending
      when the flag is set; the amount is sorted by its euro value. */
  lemma SortPaymentRequestsOrder(s: Currency.Settings, rows: seq<PaymentRequest>, sortBy: string, sortAscending: bool)
    ensures PaymentSortKey(s, sortBy).None? ==> SortPaymentRequests(s, rows, sortBy, sortAscending) == rows
    ensures PaymentSortKey(s, sortBy).Some? ==>
      SortedBy(SortPaymentRequests(s, rows, sortBy, sortAscending), PaymentSortKey(s, sortBy).value, !sortAscending)
    ensures sortBy == "PaymentAmount" && sortAscending ==>
      var r := SortPaymentRequests(s, rows, sortBy, sortAscending);
      forall i, j :: 0 <= i < j < |r| ==>
        Currency.GetEuroValue(s, r[i].PaymentAmount, r[i].CreateDate) <= Currency.GetEuroValue(s, r[j].PaymentAmount, r[j].CreateDate)
  {
    if sortBy == "PaymentAmount" && sortAscending {
      var r := SortPaymentRequests(s, rows, sortBy, sortAscending);
      var key := PaymentSortKey(s, sortBy).value;
      forall i, j | 0 <= i < j < |r|
        ensures Currency.GetEuroValue(s, r[i].PaymentAmount, r[i].CreateDate) <= Currency.GetEuroValue(s, r[j].PaymentAmount, r[j].CreateDate)
      {
        assert KeyLe(key(r[i]), key(r[j]));
      }
    }
  }

  // ---------------------------------------------------------------------------
  // The payment queries

  function CountUndistributetPayments(s: Currency.Settings, now: int, contains: (string, string) -> bool,
                                      table: seq<PaymentRequest>, f: PaymentFilter): int
  {
    |Where(table, CreatePaymentRequestPredicate(s, now, contains, f))|
  }

  /** GetUndistributetPayments: filter, sort (the caller's sortDescending is passed as
      SortPaymentRequests' ascending flag), then one page. */
  function GetUndistributetPayments(s: Currency.Settings, now: int, contains: (string, string) -> bool,
                                    table: seq<PaymentRequest>, f: PaymentFilter, sortBy: string,
                                    sortDescending: bool, page: int, resultsPerPage: int): seq<PaymentRequest>
  {
    Page(SortPaymentRequests(s, Where(table, CreatePaymentRequestPredicate(s, now, contains, f)), sortBy, sortDescending),
         page, resultsPerPage)
  }

  /** GetAllUndistributetPayments: filter, sort, then at most takeCount rows. */
  function GetAllUndistributetPayments(s: Currency.Settings, now: int, contains: (string, string) -> bool,
                                       table: seq<PaymentRequest>, f: PaymentFilter, sortBy: string,
                                       sortDescending: bool, takeCount: int): seq<PaymentRequest>
  {
    Take(SortPaymentRequests(s, Where(table, CreatePaymentRequestPredicate(s, now, contains, f)), sortBy, sortDescending),
         takeCount)
  }

  /** A page holds at most resultsPerPage requests, all passing the filters, and is the
      same page of the full sorted list (so, by Linq.PageWindow, the rows from position
      (page - 1) * resultsPerPage on); the full list is as long as the count. */
  lemma UndistributedPaymentsPage(s: Currency.Settings, now: int, contains: (string, string) -> bool,
                                  table: seq<PaymentRequest>, f: PaymentFilter, sortBy: string,
                                  sortDescending: bool, page: int, resultsPerPage: int)
    requires page >= 1 && resultsPerPage >= 0
    ensures var r := GetUndistributetPayments(s, now, contains, table, f, sortBy, sortDescending, page, resultsPerPage);
            var all := GetAllUndistributetPayments(s, now, contains, table, f, sortBy, sortDescending, |table|);
            && |r| <= resultsPerPage
            && |all| == CountUndistributetPayments(s, now, contains, table, f)
            && r == Page(all, page, resultsPerPage)
            && (forall e :: e in r ==> MatchesPaymentFilter(s, now, contains, f, e))
  {
    var p := CreatePaymentRequestPredicate(s, now, contains, f);
    var rows := Where(table, p);
    PageOfSorted(rows, SortPaymentRequests(s, rows, sortBy, sortDescending), page, resultsPerPage, |table|);
    forall e | e in rows ensures MatchesPaymentFilter(s, now, contains, f, e) {
      PaymentPredicateMeaning(s, now, contains, f, e);
    }
  }

  // ---------------------------------------------------------------------------
  // Old payments

  datatype OldPaymentFilter = OldPaymentFilter(dateFrom: Option<int>, dateTo: Option<int>, obligationStatus: Option<int>)

  /** CreateOldPaymentRequestPredicate */
  function CreateOldPaymentRequestPredicate(f: OldPaymentFilter): PaymentRequest -> bool {
    var p0 := PredicateTrue<PaymentRequest>();
    var p1 := if f.dateFrom.Some?
      then And(p0, (e: PaymentRequest) => e.PaymentRequestStatusChangeTime >= f.dateFrom.value) else p0;
    var p2 := if f.dateTo.Some?
      then And(p1, (e: PaymentRequest) => e.PaymentRequestStatusChangeTime <= f.dateTo.value) else p1;
    if f.obligationStatus.Some?
      then And(p2, (e: PaymentRequest) => e.ObligationStatusId == f.obligationStatus.value) else p2
  }

  /** The old-payments filter is inclusive on the status-change time, and accepts
      exactly what the payment filter with the same dates and status and nothing else
      accepts. */
  lemma OldPaymentPredicateMeaning(s: Currency.Settings, now: int, contains: (string, string) -> bool,
                                   f: OldPaymentFilter, e: PaymentRequest)
    ensures CreateOldPaymentRequestPredicate(f)(e) <==>
      InRange(e.PaymentRequestStatusChangeTime, f.dateFrom, f.dateTo)
      && (f.obligationStatus.None? || e.ObligationStatusId == f.obligationStatus.value)
    ensures CreateOldPaymentRequestPredicate(f)(e) ==
      CreatePaymentRequestPredicate(s, now, contains,
        NoPaymentFilter.(dateFrom := f.dateFrom, dateTo := f.dateTo, obligationStatus := f.obligationStatus))(e)
  {
    PaymentPredicateMeaning(s, now, contains,
      NoPaymentFilter.(dateFrom := f.dateFrom, dateTo := f.dateTo, obligationStatus := f.obligationStatus), e);
  }

  function CountOldPayments(table: seq<PaymentRequest>, f: OldPaymentFilter): int {
    |Where(table, CreateOldPaymentRequestPredicate(f))|
  }

  /** The filtered, sorted list of old payments. */
  function OldPaymentsSorted(s: Currency.Settings, table: seq<PaymentRequest>, f: OldPaymentFilter,
                             sortBy: string, sortDescending: bool): seq<PaymentRequest>
  {
    SortPaymentRequests(s, Where(table, CreateOldPaymentRequestPredicate(f)), sortBy, sortDescending)
  }

  /** GetOldPayments: the ids of one page of the sorted list; no rows for an empty
      page; otherwise the requests with those ids, fetched again, ordered by the
      position of their id in the page, and at most takeCount of them. */
  function GetOldPayments(s: Currency.Settings, table: seq<PaymentRequest>, f: OldPaymentFilter,
                          sortBy: string, sortDescending: bool, page: int, resultsPerPage: int,
                          takeCount: int): seq<PaymentRequest>
  {
    var paymentRequestIds := Select(Page(OldPaymentsSorted(s, table, f, sortBy, sortDescending), page, resultsPerPage),
                                    PaymentRequestId);
    if paymentRequestIds == [] then []
    else
      var paymentRequests := Where(table, IdIn(paymentRequestIds, PaymentRequestId));
      Take(OrderByPosition(paymentRequests, paymentRequestIds, PaymentRequestId), takeCount)
  }

  /** GetAllOldPayments */
  function GetAllOldPayments(s: Currency.Settings, table: seq<PaymentRequest>, f: OldPaymentFilter,
                             sortBy: string, sortDescending: bool, takeCount: int): seq<PaymentRequest>
  {
    Take(OldPaymentsSorted(s, table, f, sortBy, sortDescending), takeCount)
  }

  /** In a table keyed by PaymentRequestId, the re-fetched and re-ordered page is the
      page itself, cut to takeCount: in particular an empty page gives no rows, and
      the rows come in the sorted order. */
  lemma OldPaymentsAreThePage(s: Currency.Settings, table: seq<PaymentRequest>, f: OldPaymentFilter,
                              sortBy: string, sortDescending: bool, page: int, resultsPerPage: int,
                              takeCount: int)
    requires KeysDistinct(table, PaymentRequestId)
    ensures GetOldPayments(s, table, f, sortBy, sortDescending, page, resultsPerPage, takeCount)
         == Take(Page(OldPaymentsSorted(s, table, f, sortBy, sortDescending), page, resultsPerPage), takeCount)
  {
    var sorted := OldPaymentsSorted(s, table, f, sortBy, sortDescending);
    var pg := Page(sorted, page, resultsPerPage);
    PageSubMultiset(sorted, page, resultsPerPage);
    WhereSubMultiset(table, CreateOldPaymentRequestPredicate(f));
    assert multiset(pg) <= multiset(table);
    if pg != [] {
      assert Select(pg, PaymentRequestId) != [];
      RefetchedPage(table, pg, PaymentRequestId);
    }
  }

  /** The page of old payments is at most resultsPerPage long and is the same page of
      the full list, which is as long as the count. */
  lemma OldPaymentsPageOfAll(s: Currency.Settings, table: seq<PaymentRequest>, f: OldPaymentFilter,
                             sortBy: string, sortDescending: bool, page: int, resultsPerPage: int)
    requires page >= 1 && resultsPerPage >= 0 && KeysDistinct(table, PaymentRequestId)
    ensures var r := GetOldPayments(s, table, f, sortBy, sortDescending, page, resultsPerPage, resultsPerPage);
            var all := GetAllOldPayments(s, table, f, sortBy, sortDescending, |table|);
            && |r| <= resultsPerPage
            && |all| == CountOldPayments(table, f)
            && r == Page(all, page, resultsPerPage)
  {
    var rows := Where(table, CreateOldPaymentRequestPredicate(f));
    var sorted := OldPaymentsSorted(s, table, f, sortBy, sortDescending);
    OldPaymentsAreThePage(s, table, f, sortBy, sortDescending, page, resultsPerPage, resultsPerPage);
    PageOfSorted(rows, sorted, page, resultsPerPage, |table|);
  }

  // ---------------------------------------------------------------------------
  // Card (Borica) transactions

  datatype BoricaTransaction = BoricaTransaction(
    BoricaTransactionId: int,
    TransactionStatusId: int,
    TransactionDate: int,
    SettlementDate: Option<int>,
    Order: string,
    Amount: real,
    Fee: Option<real>,
    Commission: Option<real>,
    Card: string,
    StatusMessage: string)

  /** The date a transaction counts as made on: its settlement date once settled. */
  function EffectiveDate(t: BoricaTransaction): int {
    if t.SettlementDate.None? then t.TransactionDate else t.SettlementDate.value
  }

  /** CreateBoricaTransactionPredicate */
  function CreateBoricaTransactionPredicate(transactionStatus: Option<int>, dateFrom: Option<int>,
                                            dateTo: Option<int>): BoricaTransaction -> bool
  {
    var p0 := PredicateTrue<BoricaTransaction>();
    var p1 := if transactionStatus.Some?
      then And(p0, (e: BoricaTransaction) => e.TransactionStatusId == transactionStatus.value) else p0;
    var p2 := if dateFrom.Some?
      then And(p1, (t: BoricaTransaction) => t.TransactionDate >= dateFrom.value) else p1;
    var p3 := if dateTo.Some?
      then And(p2, (t: BoricaTransaction) => t.TransactionDate <= dateTo.value) else p2;
    var p4 := if dateFrom.Some?
      then And(p3, (e: BoricaTransaction) =>
        if e.SettlementDate.None? then e.TransactionDate >= dateFrom.value else e.SettlementDate.value >= dateFrom.value)
      else p3;
    if dateTo.Some?
      then And(p4, (e: BoricaTransaction) =>
        if e.SettlementDate.None? then e.TransactionDate <= dateTo.value else e.SettlementDate.value <= dateTo.value)
      else p4
  }

  /** A transaction passes the date bounds exactly when both its transaction date and
      its effective date lie within them; an unsettled one only needs its transaction
      date to. */
  lemma BoricaPredicateMeaning(transactionStatus: Option<int>, dateFrom: Option<int>, dateTo: Option<int>,
                               t: BoricaTransaction)
    ensures CreateBoricaTransactionPredicate(transactionStatus, dateFrom, dateTo)(t) <==>
      && (transactionStatus.None? || t.TransactionStatusId == transactionStatus.value)
      && InRange(t.TransactionDate, dateFrom, dateTo)
      && InRange(EffectiveDate(t), dateFrom, dateTo)
    ensures t.SettlementDate.None? ==>
      (CreateBoricaTransactionPredicate(transactionStatus, dateFrom, dateTo)(t) <==>
        (transactionStatus.None? || t.TransactionStatusId == transactionStatus.value)
        && InRange(t.TransactionDate, dateFrom, dateTo))
  {
  }

  /** The euro value of a transaction's amount, which SortBoricaTransactionRequests orders by. */
  function BoricaSortKey(s: Currency.Settings, sortBy: string): Option<BoricaTransaction -> SortKey> {
    if sortBy == "Order" then Some((q: BoricaTransaction) => Text(q.Order))
    else if sortBy == "Amount" then
      Some((q: BoricaTransaction) =>
        Num(if q.TransactionDate < s.euroAcceptanceDate then q.Amount / s.bgnToEuroRate else q.Amount))
    else if sortBy == "Fee" then Some((q: BoricaTransaction) => if q.Fee.None? then Null else Num(q.Fee.value))
    else if sortBy == "Commission" then
      Some((q: BoricaTransaction) => if q.Commission.None? then Null else Num(q.Commission.value))
    else if sortBy == "TransactionDate" then Some((q: BoricaTransaction) => Num(q.TransactionDate as real))
    else if sortBy == "Card" then Some((q: BoricaTransaction) => Text(q.Card))
    else if sortBy == "SettlementDate" then
      Some((q: BoricaTransaction) => if q.SettlementDate.None? then Null else Num(q.SettlementDate.value as real))
    else if sortBy == "StatusMessage" then Some((q: BoricaTransaction) => Text(q.StatusMessage))
    else None
  }

  /** SortBoricaTransactionRequests; its flag set means descending. */
  function SortBoricaTransactionRequests(s: Currency.Settings, rows: seq<BoricaTransaction>, sortBy: string,
                                         sortDescending: bool): (r: seq<BoricaTransaction>)
    ensures multiset(r) == multiset(rows)
  {
    match BoricaSortKey(s, sortBy)
    case None => rows
    case Some(key) => OrderBy(rows, key, sortDescending)
  }

  /** Unlike SortPaymentRequests, a set flag sorts in descending order; an unknown
      column leaves the order as it is; rows without a fee come last when sorting by
      fee in descending order. */
  lemma SortBoricaTransactionRequestsOrder(s: Currency.Settings, rows: seq<BoricaTransaction>, sortBy: string,
                                           sortDescending: bool)
    ensures BoricaSortKey(s, sortBy).None? ==> SortBoricaTransactionRequests(s, rows, sortBy, sortDescending) == rows
    ensures BoricaSortKey(s, sortBy).Some? ==>
      SortedBy(SortBoricaTransactionRequests(s, rows, sortBy, sortDescending), BoricaSortKey(s, sortBy).value, sortDescending)
    ensures sortBy == "Fee" && sortDescending ==>
      var r := SortBoricaTransactionRequests(s, rows, sortBy, sortDescending);
      forall i, j :: 0 <= i < j < |r| && r[i].Fee.None? ==> r[j].Fee.None?
  {
    if sortBy == "Fee" && sortDescending {
      var r := SortBoricaTransactionRequests(s, rows, sortBy, sortDescending);
      var key := BoricaSortKey(s, sortBy).value;
      forall i, j | 0 <= i < j < |r| && r[i].Fee.None? ensures r[j].Fee.None? {
        assert KeyLe(key(r[j]), key(r[i]));
      }
    }
  }

  function BoricaTransactionsSorted(s: Currency.Settings, table: seq<BoricaTransaction>, transactionStatus: Option<int>,
                                    dateFrom: Option<int>, dateTo: Option<int>, sortBy: string,
                                    sortDescending: bool): seq<BoricaTransaction>
  {
    SortBoricaTransactionRequests(s, Where(table, CreateBoricaTransactionPredicate(transactionStatus, dateFrom, dateTo)),
                                  sortBy, sortDescending)
  }

  /** GetBoricaTransactions, paged. */
  function GetBoricaTransactionsPage(s: Currency.Settings, table: seq<BoricaTransaction>, transactionStatus: Option<int>,
                                     dateFrom: Option<int>, dateTo: Option<int>, sortBy: string,
                                     sortDescending: bool, page: int, resultsPerPage: int): seq<BoricaTransaction>
  {
    Page(BoricaTransactionsSorted(s, table, transactionStatus, dateFrom, dateTo, sortBy, sortDescending), page, resultsPerPage)
  }

  /** GetBoricaTransactions with takeCount. */
  function GetBoricaTransactions(s: Currency.Settings, table: seq<BoricaTransaction>, transactionStatus: Option<int>,
                                 dateFrom: Option<int>, dateTo: Option<int>, sortBy: string,
                                 sortDescending: bool, takeCount: int): seq<BoricaTransaction>
  {
    Take(BoricaTransactionsSorted(s, table, transactionStatus, dateFrom, dateTo, sortBy, sortDescending), takeCount)
  }

  /** A page of transactions is at most resultsPerPage long, is the same page of the
      full list, and holds only transactions dated within the bounds. */
  lemma BoricaTransactionsPage(s: Currency.Settings, table: seq<BoricaTransaction>, transactionStatus: Option<int>,
                               dateFrom: Option<int>, dateTo: Option<int>, sortBy: string,
                               sortDescending: bool, page: int, resultsPerPage: int)
    requires page >= 1 && resultsPerPage >= 0
    ensures var r := GetBoricaTransactionsPage(s, table, transactionStatus, dateFrom, dateTo, sortBy, sortDescending, page, resultsPerPage);
            var all := GetBoricaTransactions(s, table, transactionStatus, dateFrom, dateTo, sortBy, sortDescending, |table|);
            && |r| <= resultsPerPage
            && r == Page(all, page, resultsPerPage)
            && (forall t :: t in r ==> InRange(t.TransactionDate, dateFrom, dateTo) && InRange(EffectiveDate(t), dateFrom, dateTo))
  {
    var p := CreateBoricaTransactionPredicate(transactionStatus, dateFrom, dateTo);
    var rows := Where(table, p);
    PageOfSorted(rows, SortBoricaTransactionRequests(s, rows, sortBy, sortDescending), page, resultsPerPage, |table|);
    forall t | t in rows ensures InRange(t.TransactionDate, dateFrom, dateTo) && InRange(EffectiveDate(t), dateFrom, dateTo) {
      BoricaPredicateMeaning(transactionStatus, dateFrom, dateTo, t);
    }
  }

  /** TotalsBoricaTransactionVO */
  datatype Totals = Totals(TotalPages: int, CommissionInEuro: real, TotalFeeInEuro: real, TotalAmountInEuro: real)

  function CommissionOrZero(t: BoricaTransaction): real {
    if t.Commission.None? then 0.0 else t.Commission.value
  }

  function FeeOrZero(t: BoricaTransaction): real {
    if t.Fee.None? then 0.0 else t.Fee.value
  }

  function Amount(t: BoricaTransaction): real {
    t.Amount
  }

  /** CountBoricaTransactions: the totals of the single group of matching rows, or a
      zeroed object when no row matches. */
  function CountBoricaTransactions(table: seq<BoricaTransaction>, transactionStatus: Option<int>,
                                   dateFrom: Option<int>, dateTo: Option<int>): Totals
  {
    var g := Where(table, CreateBoricaTransactionPredicate(transactionStatus, dateFrom, dateTo));
    if g == [] then Totals(0, 0.0, 0.0, 0.0)
    else Totals(|g|, Sum(g, CommissionOrZero), Sum(g, FeeOrZero), Sum(g, Amount))
  }

  /** The zeroed object for no rows agrees with the sums, so the totals are the count
      and the column sums of the matching rows whether or not any match; and the
      totals of two tables together are the totals of each added up. */
  lemma BoricaTotalsAreSums(a: seq<BoricaTransaction>, b: seq<BoricaTransaction>, transactionStatus: Option<int>,
                            dateFrom: Option<int>, dateTo: Option<int>)
    ensures var p := CreateBoricaTransactionPredicate(transactionStatus, dateFrom, dateTo);
            var g := Where(a, p);
            CountBoricaTransactions(a, transactionStatus, dateFrom, dateTo)
              == Totals(|g|, Sum(g, CommissionOrZero), Sum(g, FeeOrZero), Sum(g, Amount))
    ensures var ta := CountBoricaTransactions(a, transactionStatus, dateFrom, dateTo);
            var tb := CountBoricaTransactions(b, transactionStatus, dateFrom, dateTo);
            var t := CountBoricaTransactions(a + b, transactionStatus, dateFrom, dateTo);
            && t.TotalPages == ta.TotalPages + tb.TotalPages
            && t.CommissionInEuro == ta.CommissionInEuro + tb.CommissionInEuro
            && t.TotalFeeInEuro == ta.TotalFeeInEuro + tb.TotalFeeInEuro
            && t.TotalAmountInEuro == ta.TotalAmountInEuro + tb.TotalAmountInEuro
  {
    var p := CreateBoricaTransactionPredicate(transactionStatus, dateFrom, dateTo);
    WhereAppend(a, b, p);
    SumAppend(Where(a, p), Where(b, p), CommissionOrZero);
    SumAppend(Where(a, p), Where(b, p), FeeOrZero);
    SumAppend(Where(a, p), Where(b, p), Amount);
  }

  /** Transactions without a fee add nothing to the fee total. */
  lemma NullFeesAddNothing(table: seq<BoricaTransaction>, transactionStatus: Option<int>,
                           dateFrom: Option<int>, dateTo: Option<int>)
    requires forall t :: t in table ==> t.Fee.None?
    ensures CountBoricaTransactions(table, transactionStatus, dateFrom, dateTo).TotalFeeInEuro == 0.0
  {
    var g := Where(table, CreateBoricaTransactionPredicate(transactionStatus, dateFrom, dateTo));
    forall i | 0 <= i < |g| ensures FeeOrZero(g[i]) == 0.0 {
      assert g[i] in g;
    }
    SumOfZeros(g, FeeOrZero);
  }
}
