/** UndistributedPaymentVM: the view model of the undistributed payments screen, whose TotalInEuro getter
    adds up the euro values of the listed requests. The currency settings
    (CurrencyHelper's configured rate and acceptance date) are the parameter `s`. */
module UndistributedPaymentVM {
  import Linq
  import Currency

  /** The columns of a listed request that the total uses. */
  datatype UndistributedPaymentRequestVO = UndistributedPaymentRequestVO(PaymentAmount: real, CreateDate: int)

  function Amount(r: UndistributedPaymentRequestVO): real {
    r.PaymentAmount
  }

  function CreateDate(r: UndistributedPaymentRequestVO): int {
    r.CreateDate
  }

  class UndistributedPaymentVM {
    var Requests: seq<UndistributedPaymentRequestVO>

    constructor (requests: seq<UndistributedPaymentRequestVO>)
      ensures Requests == requests
    {
      Requests := requests;
    }

    /** TotalInEuro: 0 for no requests, otherwise the sum of each request's amount
        converted to euro by its own date; a request dated before the acceptance date
        adds its amount divided by the rate, and when no request is, the total is the
        plain sum of the amounts. The getter changes nothing. */
    method TotalInEuro(s: Currency.Settings) returns (total: real)
      ensures |Requests| == 0 ==> total == 0.0
      ensures total == Currency.SumOfEuroValues(s, Requests, Amount, CreateDate)
      ensures (forall i :: 0 <= i < |Requests| ==> Requests[i].CreateDate >= s.euroAcceptanceDate) ==>
                total == Linq.Sum(Requests, Amount)
      ensures forall k :: 0 <= k < |Requests| && Requests[k].CreateDate < s.euroAcceptanceDate ==>
                total == Currency.SumOfEuroValues(s, Requests[..k], Amount, CreateDate)
                         + Requests[k].PaymentAmount / s.bgnToEuroRate
                         + Currency.SumOfEuroValues(s, Requests[k + 1..], Amount, CreateDate)
    {
      if |Requests| == 0 {
        total := 0.0;
      } else {
        total := 0.0;
        for i := 0 to |Requests|
          invariant total == Currency.SumOfEuroValues(s, Requests[..i], Amount, CreateDate)
        {
          Currency.SumOfEuroValuesStep(s, Requests, i, Amount, CreateDate);
          total := total + Currency.GetEuroValue(s, Requests[i].PaymentAmount, Requests[i].CreateDate);
        }
        assert Requests[..|Requests|] == Requests;
      }
      if forall i :: 0 <= i < |Requests| ==> Requests[i].CreateDate >= s.euroAcceptanceDate {
        Currency.EuroTotalOfEuroRows(s, Requests, Amount, CreateDate);
      }
      forall k | 0 <= k < |Requests| && Requests[k].CreateDate < s.euroAcceptanceDate
        ensures total == Currency.SumOfEuroValues(s, Requests[..k], Amount, CreateDate)
                         + Requests[k].PaymentAmount / s.bgnToEuroRate
                         + Currency.SumOfEuroValues(s, Requests[k + 1..], Amount, CreateDate)
      {
        assert Requests == Requests[..k] + [Requests[k]] + Requests[k + 1..];
        Currency.EuroTotalContribution(s, Requests[..k], Requests[k], Requests[k + 1..], Amount, CreateDate);
      }
    }
  }
}
