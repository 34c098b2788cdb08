/**
 * The per-tier late-fee calculators and their factory. Fees are in cents:
 * the source's rates, 0.50 and 0.25 dollars a day, are exact in cents.
 */
module LateFees {
  import opened Entities

  /** The three calculator beans the factory is built with. */
  datatype Calculator = RegularCalculator | PremiumCalculator | StudentCalculator

  /**
   * `RegularLateFeeCalculator`: 50 cents a day. Having no floor, the fee has the sign of its
   * argument: an early return gives a negative fee.
   */
  function RegularLateFee(daysLate: int): (r: int)
    ensures r == 0 <==> daysLate == 0
    ensures r < 0 <==> daysLate < 0
    ensures r % 50 == 0
  {
    daysLate * 50
  }

  /** `PremiumLateFeeCalculator`: always waived, however late. */
  function PremiumLateFee(daysLate: int): (r: int)
    ensures r == 0
  {
    0
  }

  /** `StudentLateFeeCalculator`: nothing unless late, then 25 cents a day. */
  function StudentLateFee(daysLate: int): (r: int)
    ensures r >= 0
    ensures r == 0 <==> daysLate <= 0
  {
    if daysLate <= 0 then 0 else daysLate * 25
  }

  /**
   * `calculateLateFee` on the given calculator: each calculator charges its own rate. For any
   * non-negative lateness no calculator charges more
   * than the regular rate, and only the regular one can give a negative fee.
   */
  function LateFee(c: Calculator, daysLate: int): (r: int)
    ensures c == RegularCalculator ==> r == RegularLateFee(daysLate)
    ensures c == PremiumCalculator ==> r == PremiumLateFee(daysLate)
    ensures c == StudentCalculator ==> r == StudentLateFee(daysLate)
    ensures daysLate >= 0 ==> 0 <= r <= RegularLateFee(daysLate)
    ensures r < 0 ==> c == RegularCalculator && daysLate < 0
  {
    match c
    case RegularCalculator => RegularLateFee(daysLate)
    case PremiumCalculator => PremiumLateFee(daysLate)
    case StudentCalculator => StudentLateFee(daysLate)
  }

  /** `LateFeeCalculatorFactory.getCalculatorFor`: an exhaustive switch, no fallback to Regular. */
  function CalculatorFor(tier: Tier): (c: Calculator)
    ensures tier == Regular <==> c == RegularCalculator
    ensures tier == Premium <==> c == PremiumCalculator
    ensures tier == Student <==> c == StudentCalculator
  {
    match tier
    case Regular => RegularCalculator
    case Premium => PremiumCalculator
    case Student => StudentCalculator
  }

  /** The regular fee is zero on time and grows by exactly 50 cents per extra day. */
  lemma RegularFeeSteps(daysLate: int)
    ensures RegularLateFee(0) == 0
    ensures RegularLateFee(daysLate + 1) == RegularLateFee(daysLate) + 50
  {
  }

  /** The student fee never decreases with lateness. */
  lemma StudentFeeMonotone(d1: int, d2: int)
    requires d1 <= d2
    ensures StudentLateFee(d1) <= StudentLateFee(d2)
  {
  }

  /** When late, the student pays exactly half the regular fee. */
  lemma StudentPaysHalf(daysLate: int)
    requires daysLate > 0
    ensures 2 * StudentLateFee(daysLate) == RegularLateFee(daysLate)
  {
  }

  /** For any lateness, the tiers pay in the order Premium <= Student <= Regular. */
  lemma FeesAreOrdered(daysLate: int)
    requires daysLate >= 0
    ensures LateFee(CalculatorFor(Premium), daysLate) <= LateFee(CalculatorFor(Student), daysLate)
    ensures LateFee(CalculatorFor(Student), daysLate) <= LateFee(CalculatorFor(Regular), daysLate)
  {
  }

  /** Five days late costs 250, 0 and 125 cents for Regular, Premium and Student. */
  lemma FiveDaysLate()
    ensures LateFee(CalculatorFor(Regular), 5) == 250
    ensures LateFee(CalculatorFor(Premium), 5) == 0
    ensures LateFee(CalculatorFor(Student), 5) == 125
  {
  }
}
