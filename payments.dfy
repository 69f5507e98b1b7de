/**
 * Late-fee payments and refunds through an external payment gateway. The
 * gateway is outside the model: its answer is an input, and each operation
 * reports the request it sent, or none when its guards stopped it first.
 */
module Payments {
  import opened Wrappers
  import opened Text
  import opened Fees

  /** Refunds must name a transaction the gateway issued. */
  const TransactionPrefix := "txn_"

  /** A payment request: who pays, how much, and the book the fee is for. */
  datatype Charge = Charge(patron: string, cents: nat, title: string)

  /** What the gateway's `process_payment` answers, or the exception it raises. */
  datatype GatewayReply =
    | Approved(txn: string, message: string)
    | Declined(message: string)
    | Raised(detail: string)

  datatype PayError =
    | InvalidPatron
    | NoFeesDue
    | BookNotFound
    | PaymentDeclined(message: string)
    | ProcessingError(detail: string)

  datatype PayOutcome = Paid(txn: string, message: string) | PayFailed(error: PayError)

  /** The outcome of `pay_late_fees` and the charge it sent, if it sent one. */
  datatype PayResult = PayResult(outcome: PayOutcome, charged: Option<Charge>)

  /** How a gateway answer becomes the payment's outcome. */
  function Settle(reply: GatewayReply): (o: PayOutcome)
    ensures o.Paid? <==> reply.Approved?
    ensures o.Paid? ==> o.txn == reply.txn
  {
    match reply
    case Approved(txn, message) => Paid(txn, message)
    case Declined(message) => PayFailed(PaymentDeclined(message))
    case Raised(detail) => PayFailed(ProcessingError(detail))
  }

  /** What the gateway's `refund_payment` answers, or the exception it raises. */
  datatype RefundReply =
    | RefundAccepted(message: string)
    | RefundRejected(message: string)
    | RefundRaised(detail: string)

  datatype RefundError =
    | InvalidTransaction
    | AmountNotPositive
    | AmountOverMax
    | RefundDeclined(message: string)
    | RefundProcessingError(detail: string)

  datatype RefundOutcome = Refunded(message: string) | RefundFailed(error: RefundError)

  /** A refund request: the transaction and the amount in cents. */
  datatype RefundRequest = RefundRequest(txn: string, cents: int)

  datatype RefundResult = RefundResult(outcome: RefundOutcome, requested: Option<RefundRequest>)

  /** `refund_late_fee_payment`: the gateway is asked only for a transaction
      id it issued and an amount between one cent and the largest late fee;
      otherwise the first failing guard names the error. */
  function RefundLateFee(txn: string, cents: int, reply: RefundReply): (r: RefundResult)
    ensures r.requested.Some? <==> HasPrefix(txn, TransactionPrefix) && 0 < cents <= MaxFee
    ensures r.requested.Some? ==> r.requested.value == RefundRequest(txn, cents)
    ensures !HasPrefix(txn, TransactionPrefix) ==> r.outcome == RefundFailed(InvalidTransaction)
    ensures HasPrefix(txn, TransactionPrefix) && cents <= 0 ==> r.outcome == RefundFailed(AmountNotPositive)
    ensures HasPrefix(txn, TransactionPrefix) && cents > MaxFee ==> r.outcome == RefundFailed(AmountOverMax)
    ensures r.outcome.Refunded? <==> r.requested.Some? && reply.RefundAccepted?
  {
    if txn == [] || !HasPrefix(txn, TransactionPrefix) then
      RefundResult(RefundFailed(InvalidTransaction), None)
    else if cents <= 0 then
      RefundResult(RefundFailed(AmountNotPositive), None)
    else if cents > MaxFee then
      RefundResult(RefundFailed(AmountOverMax), None)
    else
      var outcome := match reply
        case RefundAccepted(message) => Refunded(message)
        case RefundRejected(message) => RefundFailed(RefundDeclined(message))
        case RefundRaised(detail) => RefundFailed(RefundProcessingError(detail));
      RefundResult(outcome, Some(RefundRequest(txn, cents)))
  }
}
