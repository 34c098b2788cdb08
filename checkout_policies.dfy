/** The per-tier checkout policies and the factory that picks one. */
module CheckoutPolicies {
  import opened Entities

  /** A checkout policy: how many books a member may hold and for how many days. */
  datatype Policy = Policy(maxBooks: int, loanPeriodDays: int)

  const RegularCheckoutPolicy := Policy(3, 14)
  const PremiumCheckoutPolicy := Policy(10, 30)
  const StudentCheckoutPolicy := Policy(5, 21)

  /** `CheckoutPolicyFactory.getPolicyFor`: an exhaustive switch over the tiers, no fallback. */
  function PolicyFor(tier: Tier): (p: Policy)
    ensures p.maxBooks > 0 && p.loanPeriodDays > 0
  {
    match tier
    case Regular => RegularCheckoutPolicy
    case Premium => PremiumCheckoutPolicy
    case Student => StudentCheckoutPolicy
  }

  /**
   * `canCheckout`: the member may take one more book. Only the member's count is read.
   */
  function CanCheckout(p: Policy, member: MemberRecord): (r: bool)
    ensures r ==> member.booksCheckedOut as int + 1 <= p.maxBooks
    ensures !r ==> member.booksCheckedOut as int >= p.maxBooks
  {
    member.booksCheckedOut as int < p.maxBooks
  }

  /** Each tier resolves to its own limit and loan period. */
  lemma PolicyTable()
    ensures PolicyFor(Regular) == Policy(3, 14)
    ensures PolicyFor(Premium) == Policy(10, 30)
    ensures PolicyFor(Student) == Policy(5, 21)
  {
  }

  /** A member already at the limit is refused; one below it is granted. */
  lemma LimitIsExclusive(tier: Tier, member: MemberRecord)
    ensures member.booksCheckedOut as int == PolicyFor(tier).maxBooks ==> !CanCheckout(PolicyFor(tier), member)
    ensures member.booksCheckedOut as int == PolicyFor(tier).maxBooks - 1 ==> CanCheckout(PolicyFor(tier), member)
  {
  }

  /** The decision depends on the count alone: name, tier, email and status play no part. */
  lemma CanCheckoutReadsOnlyCount(p: Policy, m1: MemberRecord, m2: MemberRecord)
    requires m1.booksCheckedOut == m2.booksCheckedOut
    ensures CanCheckout(p, m1) == CanCheckout(p, m2)
  {
  }

  /** Fewer books held never turns a grant into a refusal. */
  lemma CanCheckoutMonotone(p: Policy, m1: MemberRecord, m2: MemberRecord)
    requires m1.booksCheckedOut <= m2.booksCheckedOut
    ensures CanCheckout(p, m2) ==> CanCheckout(p, m1)
  {
  }

  /** Student is at least as generous as Regular, and Premium at least as Student, on both counts. */
  lemma TiersAreOrdered(member: MemberRecord)
    ensures PolicyFor(Regular).maxBooks < PolicyFor(Student).maxBooks < PolicyFor(Premium).maxBooks
    ensures PolicyFor(Regular).loanPeriodDays < PolicyFor(Student).loanPeriodDays < PolicyFor(Premium).loanPeriodDays
    ensures CanCheckout(PolicyFor(Regular), member) ==> CanCheckout(PolicyFor(Student), member)
    ensures CanCheckout(PolicyFor(Student), member) ==> CanCheckout(PolicyFor(Premium), member)
  {
  }
}
