/**
 * The late-fee calculator: a capped, two-tier daily rate on whole days
 * overdue, in integer cents.
 */
module Fees {
  import opened Entities

  const SecondsPerDay := 86400
  /** Days charged at the first-week rate. */
  const FirstTierDays := 7
  /** Cents per day during the first week overdue. */
  const FirstTierRate := 50
  /** Cents per day after the first week. */
  const LaterRate := 100
  /** Highest fee on one book, in cents. */
  const MaxFee := 1500

  function Min(a: int, b: int): int { if a <= b then a else b }
  function Max(a: int, b: int): int { if a <= b then b else a }

  /** What the fee query answers: the fee in cents and the whole days overdue. */
  datatype Fee = Fee(cents: nat, days: nat)

  /** The fee for `days` whole days overdue: the tiered sum, capped at 15.00. */
  function LateFeeCents(days: nat): (cents: nat)
    ensures cents == Min(FirstTierRate * Min(days, FirstTierDays)
                         + LaterRate * Max(days - FirstTierDays, 0), MaxFee)
  {
    if days <= FirstTierDays then days * FirstTierRate
    else
      var raw := FirstTierDays * FirstTierRate + (days - FirstTierDays) * LaterRate;
      if raw < MaxFee then raw else MaxFee
  }

  /** The cap is reached exactly from day 19 on (3.50 + 12.00 > 15.00). */
  lemma LateFeeCap(days: nat)
    ensures LateFeeCents(days) <= MaxFee
    ensures LateFeeCents(days) == MaxFee <==> days >= 19
  {
  }

  /** One more day overdue never lowers the fee. */
  lemma LateFeeMonotone(d1: nat, d2: nat)
    requires d1 <= d2
    ensures LateFeeCents(d1) <= LateFeeCents(d2)
  {
  }

  /** Sample fees: 3 days cost 1.50, 8 days 4.50, 9 days 5.50, and 19 or
      30 days the 15.00 cap. */
  lemma LateFeeSamples()
    ensures LateFeeCents(3) == 150 && LateFeeCents(8) == 450 && LateFeeCents(9) == 550
    ensures LateFeeCents(19) == 1500 && LateFeeCents(30) == 1500
  {
  }

  /** The fee on one open record at time `now`: nothing unless `now` is past
      the due date, otherwise the fee for the whole days elapsed since it. */
  function FeeForRecord(r: BorrowRecord, now: int): (f: Fee)
    ensures f.cents == LateFeeCents(f.days)
    ensures now <= r.dueDate ==> f == Fee(0, 0)
    ensures now > r.dueDate ==>
              f.days * SecondsPerDay <= now - r.dueDate < f.days * SecondsPerDay + SecondsPerDay
  {
    if now > r.dueDate then
      var d := (now - r.dueDate) / SecondsPerDay;
      Fee(LateFeeCents(d), d)
    else
      Fee(0, 0)
  }
}
