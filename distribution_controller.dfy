/** DistributionController: marking a distribution of revenues as distributed, and
    recording the schema-validation errors of its payment file. The entities the
    controller changes are objects tracked by the unit of work, whose Save is
    counted; the redirects and the file the actions answer with are values. */
module DistributionController {
  import opened Text

  /** The obligation status of a payment request; ObligationStatusEnum's numeric
      values are not part of this model. */
  datatype ObligationStatus = CheckedAccount | OtherStatus(id: int)

  /** A DistributionError row: when it was recorded and its text. */
  datatype StoredError = StoredError(CreatedAt: int, Error: string)

  class DistributionRevenue {
    const DistributionRevenueId: int
    var IsDistributed: bool
    var DistributionErrors: seq<StoredError>

    constructor (id: int, isDistributed: bool, errors: seq<StoredError>)
      ensures DistributionRevenueId == id && IsDistributed == isDistributed && DistributionErrors == errors
    {
      DistributionRevenueId := id;
      IsDistributed := isDistributed;
      DistributionErrors := errors;
    }
  }

  class PaymentRequest {
    /** The distribution the request's DistributionRevenuePayment belongs to, if any. */
    const DistributionRevenueId: Option<int>
    var ObligationStatusId: ObligationStatus

    constructor (distributionRevenueId: Option<int>, status: ObligationStatus)
      ensures DistributionRevenueId == distributionRevenueId && ObligationStatusId == status
    {
      DistributionRevenueId := distributionRevenueId;
      ObligationStatusId := status;
    }
  }

  /** The first distribution with the id, or null. */
  function FindRevenue(revenues: seq<DistributionRevenue>, id: int): (r: DistributionRevenue?)
    ensures r != null ==> r in revenues && r.DistributionRevenueId == id
    ensures r == null ==> forall x :: x in revenues ==> x.DistributionRevenueId != id
  {
    if revenues == [] then null
    else if revenues[0].DistributionRevenueId == id then revenues[0]
    else FindRevenue(revenues[1..], id)
  }

  /** The entities the unit of work tracks, and how often Save was called. */
  class DistributionStore {
    var revenues: seq<DistributionRevenue>
    var paymentRequests: seq<PaymentRequest>
    var saves: nat

    constructor (revenues: seq<DistributionRevenue>, paymentRequests: seq<PaymentRequest>)
      ensures this.revenues == revenues && this.paymentRequests == paymentRequests && saves == 0
    {
      this.revenues := revenues;
      this.paymentRequests := paymentRequests;
      saves := 0;
    }

    /** GetDistribution: the distribution with the id, or null. */
    method GetDistribution(id: int) returns (r: DistributionRevenue?)
      ensures r == FindRevenue(revenues, id)
    {
      var i := 0;
      while i < |revenues| && revenues[i].DistributionRevenueId != id
        invariant 0 <= i <= |revenues|
        invariant FindRevenue(revenues, id) == FindRevenue(revenues[i..], id)
      {
        assert revenues[i..][1..] == revenues[i + 1..];
        i := i + 1;
      }
      r := if i < |revenues| then revenues[i] else null;
    }

    /** GetDistributionPaymentRequests: the requests belonging to the distribution. */
    method GetDistributionPaymentRequests(id: int) returns (prs: seq<PaymentRequest>)
      ensures forall p :: p in prs <==> p in paymentRequests && p.DistributionRevenueId == Some(id)
    {
      prs := [];
      for i := 0 to |paymentRequests|
        invariant forall p :: p in prs <==> p in paymentRequests[..i] && p.DistributionRevenueId == Some(id)
      {
        assert paymentRequests[..i + 1] == paymentRequests[..i] + [paymentRequests[i]];
        if paymentRequests[i].DistributionRevenueId == Some(id) {
          prs := prs + [paymentRequests[i]];
        }
      }
      assert paymentRequests[..|paymentRequests|] == paymentRequests;
    }

    /** UnitOfWork.Save */
    method Save()
      modifies this
      ensures revenues == old(revenues) && paymentRequests == old(paymentRequests)
      ensures saves == old(saves) + 1
    {
      saves := saves + 1;
    }
  }

  /** The answers of the actions: a redirect to the list of distributions with an
      error message, a redirect to one distribution's payments with a message, or the
      payment file of a distribution. */
  datatype ActionResult =
    | RedirectToDistributions(errorMessage: string)
    | RedirectToPayments(id: int, message: string)
    | XmlFile(id: int)

  const NotFoundMessage := "Разпределението не е намерено."
  const AlreadyDistributedMessage := "Разпределението вече е било разпределено."
  const MarkedMessage := "Разпределението e маркирано като разпределено."

  /** Distribute: a missing or already distributed distribution is refused and nothing
      changes; otherwise the distribution is marked distributed, every payment request
      belonging to it becomes CheckedAccount, nothing else changes, and Save is called
      once. */
  method Distribute(store: DistributionStore, id: int) returns (result: ActionResult)
    modifies store, store.revenues, store.paymentRequests
    ensures store.revenues == old(store.revenues) && store.paymentRequests == old(store.paymentRequests)
    ensures var target := FindRevenue(store.revenues, id);
            if target == null || old(target.IsDistributed) then
              && result == RedirectToDistributions(if target == null then NotFoundMessage else AlreadyDistributedMessage)
              && store.saves == old(store.saves)
              && (forall r :: r in store.revenues ==> r.IsDistributed == old(r.IsDistributed))
              && (forall p :: p in store.paymentRequests ==> p.ObligationStatusId == old(p.ObligationStatusId))
            else
              && result == RedirectToPayments(id, MarkedMessage)
              && store.saves == old(store.saves) + 1
              && target.IsDistributed
              && (forall r :: r in store.revenues && r != target ==> r.IsDistributed == old(r.IsDistributed))
              && (forall p :: p in store.paymentRequests ==>
                    p.ObligationStatusId == if p.DistributionRevenueId == Some(id) then CheckedAccount
                                            else old(p.ObligationStatusId))
    ensures forall r :: r in store.revenues ==> r.DistributionErrors == old(r.DistributionErrors)
  {
    var distributionRevenue := store.GetDistribution(id);
    if distributionRevenue == null {
      return RedirectToDistributions(NotFoundMessage);
    }
    if distributionRevenue.IsDistributed {
      return RedirectToDistributions(AlreadyDistributedMessage);
    }
    var paymentRequests := store.GetDistributionPaymentRequests(id);
    distributionRevenue.IsDistributed := true;
    for i := 0 to |paymentRequests|
      invariant store.revenues == old(store.revenues) && store.paymentRequests == old(store.paymentRequests)
      invariant store.saves == old(store.saves)
      invariant distributionRevenue.IsDistributed
      invariant forall p :: p in paymentRequests ==> p in store.paymentRequests
      invariant forall r :: r in store.revenues && r != distributionRevenue ==> r.IsDistributed == old(r.IsDistributed)
      invariant forall r :: r in store.revenues ==> r.DistributionErrors == old(r.DistributionErrors)
      invariant forall p :: p in store.paymentRequests ==>
                  p.ObligationStatusId == if p in paymentRequests[..i] then CheckedAccount else old(p.ObligationStatusId)
    {
      assert paymentRequests[..i + 1] == paymentRequests[..i] + [paymentRequests[i]];
      assert paymentRequests[i] in old(store.paymentRequests);
      paymentRequests[i].ObligationStatusId := CheckedAccount;
    }
    assert paymentRequests[..|paymentRequests|] == paymentRequests;
    store.Save();
    return RedirectToPayments(id, MarkedMessage);
  }
  // ---------------------------------------------------------------------------
  // The validation errors of the payment file (GetFile)

  const MaxErrorLength := 500

  /** `e.Length > 500 ? e.Substring(0, 500) : e` */
  function Truncate(e: string): (t: string)
    ensures |t| <= MaxErrorLength && t <= e
    ensures |e| <= MaxErrorLength ==> t == e
    ensures |e| > MaxErrorLength ==> |t| == MaxErrorLength
  {
    if |e| > MaxErrorLength then e[..MaxErrorLength] else e
  }

  /** `DistributionErrors.Any(de => string.Equals(de.Error, e, OrdinalIgnoreCase))` */
  predicate AlreadyStored(stored: seq<StoredError>, e: string) {
    exists d :: d in stored && EqualsIgnoreCase(d.Error, e)
  }

  /** One error of the validation: a non-blank error that no stored error equals,
      ignoring case, is stored cut to 500 characters. The comparison is with the
      uncut error (see "Finding" below). */
  function AddIfNewAsWritten(stored: seq<StoredError>, e: string, now: int): seq<StoredError> {
    if !IsBlank(e) && !AlreadyStored(stored, e) then stored + [StoredError(now, Truncate(e))] else stored
  }

  /** The errors of the validation, recorded one after the other as GetFile does. */
  function MergeErrorsAsWritten(stored: seq<StoredError>, errors: seq<string>, now: int): seq<StoredError>
    decreases |errors|
  {
    if errors == [] then stored
    else AddIfNewAsWritten(MergeErrorsAsWritten(stored, errors[..|errors| - 1], now), errors[|errors| - 1], now)
  }

  /** GetFile, less the building and validation of the file: `validationErrors` is
      what the schema validation reported and `now` the clock. A missing distribution
      is refused and nothing changes; otherwise its errors become the merge, as
      written, of the reported ones into the stored ones, Save is called once when anything was
      reported and not at all otherwise, and nothing else changes. */
  method GetFile(store: DistributionStore, id: int, validationErrors: seq<string>, now: int)
    returns (result: ActionResult)
    modifies store, store.revenues
    ensures store.revenues == old(store.revenues) && store.paymentRequests == old(store.paymentRequests)
    ensures var target := FindRevenue(store.revenues, id);
            if target == null then
              && result == RedirectToDistributions(NotFoundMessage)
              && store.saves == old(store.saves)
              && (forall r :: r in store.revenues ==> r.DistributionErrors == old(r.DistributionErrors))
            else
              && result == XmlFile(id)
              && store.saves == old(store.saves) + (if |validationErrors| > 0 then 1 else 0)
              && target.DistributionErrors == MergeErrorsAsWritten(old(target.DistributionErrors), validationErrors, now)
              && (forall r :: r in store.revenues && r != target ==> r.DistributionErrors == old(r.DistributionErrors))
    ensures forall r :: r in store.revenues ==> r.IsDistributed == old(r.IsDistributed)
  {
    var distributionRevenue := store.GetDistribution(id);
    if distributionRevenue == null {
      return RedirectToDistributions(NotFoundMessage);
    }
    if |validationErrors| > 0 {
      for i := 0 to |validationErrors|
        invariant store.revenues == old(store.revenues) && store.paymentRequests == old(store.paymentRequests)
        invariant store.saves == old(store.saves)
        invariant distributionRevenue.DistributionErrors
               == MergeErrorsAsWritten(old(distributionRevenue.DistributionErrors), validationErrors[..i], now)
        invariant forall r :: r in store.revenues && r != distributionRevenue ==> r.DistributionErrors == old(r.DistributionErrors)
        invariant forall r :: r in store.revenues ==> r.IsDistributed == old(r.IsDistributed)
      {
        var e := validationErrors[i];
        var error := if |e| > MaxErrorLength then e[..MaxErrorLength] else e;
        assert validationErrors[..i + 1][..i] == validationErrors[..i];
        if !IsBlank(e) && !AlreadyStored(distributionRevenue.DistributionErrors, e) {
          distributionRevenue.DistributionErrors := distributionRevenue.DistributionErrors + [StoredError(now, error)];
        }
      }
      assert validationErrors[..|validationErrors|] == validationErrors;
      store.Save();
    }
    return XmlFile(id);
  }

  // ---------------------------------------------------------------------------
  // What GetFile's merge keeps, adds and skips

  /** GetFile's merge keeps the stored errors, in place; every added one was recorded
      at `now` and is, cut to its first 500 characters, a reported error that is not
      blank. */
  lemma {:induction false} MergeKeepsAndTruncates(stored: seq<StoredError>, errors: seq<string>, now: int)
    ensures var r := MergeErrorsAsWritten(stored, errors, now);
            && |stored| <= |r| && r[..|stored|] == stored
            && (forall k :: |stored| <= k < |r| ==>
                  && r[k].CreatedAt == now
                  && |r[k].Error| <= MaxErrorLength
                  && exists e :: e in errors && !IsBlank(e) && r[k].Error == Truncate(e))
    decreases |errors|
  {
    if errors != [] {
      var init := errors[..|errors| - 1];
      var last := errors[|errors| - 1];
      MergeKeepsAndTruncates(stored, init, now);
      var m := MergeErrorsAsWritten(stored, init, now);
      var r := MergeErrorsAsWritten(stored, errors, now);
      assert r == AddIfNewAsWritten(m, last, now);
      forall k | |stored| <= k < |r|
        ensures exists e :: e in errors && !IsBlank(e) && r[k].Error == Truncate(e)
      {
        if k < |m| {
          assert r[k] == m[k];
          var e :| e in init && !IsBlank(e) && m[k].Error == Truncate(e);
          assert e in errors;
        } else {
          assert last in errors;
        }
      }
    }
  }

  /** In GetFile's merge, reported errors that are blank or already stored, compared
      uncut and ignoring case, add nothing. */
  lemma {:induction false} NothingNewAddsNothing(stored: seq<StoredError>, errors: seq<string>, now: int)
    requires forall e :: e in errors ==> IsBlank(e) || AlreadyStored(stored, e)
    ensures MergeErrorsAsWritten(stored, errors, now) == stored
    decreases |errors|
  {
    if errors != [] {
      assert forall e :: e in errors[..|errors| - 1] ==> e in errors;
      NothingNewAddsNothing(stored, errors[..|errors| - 1], now);
      assert errors[|errors| - 1] in errors;
    }
  }

  /** After GetFile's merge every reported error that is not blank is stored ignoring
      case: either as it is, because a stored error already equalled it, or cut to 500
      characters, because it was added. */
  lemma {:induction false} MergeCoversReported(stored: seq<StoredError>, errors: seq<string>, now: int)
    ensures var r := MergeErrorsAsWritten(stored, errors, now);
            forall e :: e in errors && !IsBlank(e) ==> AlreadyStored(r, e) || AlreadyStored(r, Truncate(e))
    decreases |errors|
  {
    if errors != [] {
      var init := errors[..|errors| - 1];
      var last := errors[|errors| - 1];
      MergeCoversReported(stored, init, now);
      var m := MergeErrorsAsWritten(stored, init, now);
      var r := MergeErrorsAsWritten(stored, errors, now);
      assert r == AddIfNewAsWritten(m, last, now);
      assert m <= r;
      forall e | e in errors && !IsBlank(e) ensures AlreadyStored(r, e) || AlreadyStored(r, Truncate(e)) {
        if e in init && AlreadyStored(m, e) {
          var d :| d in m && EqualsIgnoreCase(d.Error, e);
          assert d in r;
        } else if e in init {
          var d :| d in m && EqualsIgnoreCase(d.Error, Truncate(e));
          assert d in r;
        } else if AlreadyStored(m, e) {
          var d :| d in m && EqualsIgnoreCase(d.Error, e);
          assert d in r;
        } else {
          assert StoredError(now, Truncate(e)) in r;
        }
      }
    }
  }

  // ---------------------------------------------------------------------------
  // Finding: as written, an error longer than 500 characters is recorded again on
  // every call

  /** Strings of different lengths are never equal ignoring case, so as written,
      reporting the same 501-character error on two calls stores it twice. */
  lemma LongErrorStoredTwice(t1: int, t2: int)
    ensures var e := seq(MaxErrorLength + 1, _ => 'x');
            var first := MergeErrorsAsWritten([], [e], t1);
            |first| == 1 && |MergeErrorsAsWritten(first, [e], t2)| == 2
  {
    var e := seq(MaxErrorLength + 1, _ => 'x');
    assert !IsBlank(e) by { assert e[0] == 'x'; }
    var first := MergeErrorsAsWritten([], [e], t1);
    var none: seq<string> := [];
    assert [e][..0] == none && [e][0] == e;
    assert MergeErrorsAsWritten([], none, t1) == [];
    assert first == [StoredError(t1, Truncate(e))];
    assert !AlreadyStored(first, e);
  }

  /** One error of the validation, as the duplicate check is evidently meant: a
      non-blank error whose text, truncated to 500 characters, no stored error equals
      ignoring case, is stored truncated. GetFile as written compares the untruncated
      text instead (AddIfNewAsWritten above). */
  function AddIfNew(stored: seq<StoredError>, e: string, now: int): seq<StoredError> {
    if !IsBlank(e) && !AlreadyStored(stored, Truncate(e)) then stored + [StoredError(now, Truncate(e))] else stored
  }

  /** The errors of the validation, recorded one after the other with the corrected
      duplicate check. */
  function MergeErrors(stored: seq<StoredError>, errors: seq<string>, now: int): seq<StoredError>
    decreases |errors|
  {
    if errors == [] then stored
    else AddIfNew(MergeErrors(stored, errors[..|errors| - 1], now), errors[|errors| - 1], now)
  }

  /** With the corrected check, a merge in which every reported error is blank or
      already stored, truncated and ignoring case, adds nothing. */
  lemma {:induction false} CorrectedNothingNewAddsNothing(stored: seq<StoredError>, errors: seq<string>, now: int)
    requires forall e :: e in errors && !IsBlank(e) ==> AlreadyStored(stored, Truncate(e))
    ensures MergeErrors(stored, errors, now) == stored
    decreases |errors|
  {
    if errors != [] {
      assert forall e :: e in errors[..|errors| - 1] ==> e in errors;
      CorrectedNothingNewAddsNothing(stored, errors[..|errors| - 1], now);
      assert errors[|errors| - 1] in errors;
    }
  }

  /** After the corrected merge every reported error that is not blank is stored,
      truncated, ignoring case. */
  lemma {:induction false} CorrectedMergeCoversReported(stored: seq<StoredError>, errors: seq<string>, now: int)
    ensures var r := MergeErrors(stored, errors, now);
            forall e :: e in errors && !IsBlank(e) ==> AlreadyStored(r, Truncate(e))
    decreases |errors|
  {
    if errors != [] {
      var init := errors[..|errors| - 1];
      var last := errors[|errors| - 1];
      CorrectedMergeCoversReported(stored, init, now);
      var m := MergeErrors(stored, init, now);
      var r := MergeErrors(stored, errors, now);
      assert r == AddIfNew(m, last, now);
      assert m <= r;
      forall e | e in errors && !IsBlank(e) ensures AlreadyStored(r, Truncate(e)) {
        if e in init || AlreadyStored(m, Truncate(e)) {
          var d :| d in m && EqualsIgnoreCase(d.Error, Truncate(e));
          assert d in r;
        } else {
          assert StoredError(now, Truncate(e)) in r;
        }
      }
    }
  }

  /** With the corrected check, recording the same report again adds nothing, at any
      later time. */
  lemma MergeIdempotent(stored: seq<StoredError>, errors: seq<string>, t1: int, t2: int)
    ensures var once := MergeErrors(stored, errors, t1);
            MergeErrors(once, errors, t2) == once
  {
    var once := MergeErrors(stored, errors, t1);
    CorrectedMergeCoversReported(stored, errors, t1);
    CorrectedNothingNewAddsNothing(once, errors, t2);
  }

  /** The two agree whenever no reported error is longer than 500 characters, so the
      code as written records a report of short errors only once too. */
  lemma {:induction false} AsWrittenAgreesOnShortErrors(stored: seq<StoredError>, errors: seq<string>, now: int)
    requires forall e :: e in errors ==> |e| <= MaxErrorLength
    ensures MergeErrorsAsWritten(stored, errors, now) == MergeErrors(stored, errors, now)
    decreases |errors|
  {
    if errors != [] {
      assert forall e :: e in errors[..|errors| - 1] ==> e in errors;
      AsWrittenAgreesOnShortErrors(stored, errors[..|errors| - 1], now);
      assert errors[|errors| - 1] in errors;
    }
  }

  /** A report of errors none longer than 500 characters is recorded only once by
      GetFile as written: recording it again, at any later time, adds nothing. */
  lemma ShortReportRecordedOnce(stored: seq<StoredError>, errors: seq<string>, t1: int, t2: int)
    requires forall e :: e in errors ==> |e| <= MaxErrorLength
    ensures var once := MergeErrorsAsWritten(stored, errors, t1);
            MergeErrorsAsWritten(once, errors, t2) == once
  {
    var once := MergeErrors(stored, errors, t1);
    AsWrittenAgreesOnShortErrors(stored, errors, t1);
    AsWrittenAgreesOnShortErrors(once, errors, t2);
    MergeIdempotent(stored, errors, t1, t2);
  }
}
