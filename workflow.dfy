/**
 * How the policy and the two services compose in a checkout and a
 * return. The orchestrating service is not part of this model; these lemmas state only
 * what its unit tests observe of the composition.
 */
module Workflow {
  import opened Outcomes
  import opened Entities
  import opened CheckoutPolicies
  import opened Members
  import opened Books

  /** The due date a granted checkout records: today plus the tier's loan period. */
  function DueDateFor(tier: Tier, today: int): int
  {
    today + PolicyFor(tier).loanPeriodDays
  }

  /**
   * A granted checkout lends the book to the member until today plus 14, 30 or 21 days,
   * and the member's new count stays within the tier's limit.
   */
  lemma GrantedCheckout(book: BookRecord, member: MemberRecord, today: int)
    requires CanCheckout(PolicyFor(member.tier), member)
    ensures CheckedOut(book, member.email, DueDateFor(member.tier, today)).dueDate == Some(DueDateFor(member.tier, today))
    ensures member.email.Some? ==> OnLoanTo(CheckedOut(book, member.email, DueDateFor(member.tier, today)), member.email.value, DueDateFor(member.tier, today))
    ensures member.tier == Regular ==> DueDateFor(member.tier, today) == today + 14
    ensures member.tier == Premium ==> DueDateFor(member.tier, today) == today + 30
    ensures member.tier == Student ==> DueDateFor(member.tier, today) == today + 21
    ensures Incremented(member.booksCheckedOut) as int == member.booksCheckedOut as int + 1
    ensures Incremented(member.booksCheckedOut) as int <= PolicyFor(member.tier).maxBooks
  {
  }

  /**
   * Returning a book that a granted checkout lent puts it back on the shelf as it was,
   * and gives the member back the count they had.
   */
  lemma CheckoutThenReturn(book: BookRecord, member: MemberRecord, today: int)
    requires OnShelf(book)
    requires 0 <= member.booksCheckedOut
    requires CanCheckout(PolicyFor(member.tier), member)
    ensures Returned(CheckedOut(book, member.email, DueDateFor(member.tier, today))) == book
    ensures Decremented(Incremented(member.booksCheckedOut)) == member.booksCheckedOut
  {
    ReturnUndoesCheckout(book, member.email, DueDateFor(member.tier, today));
    DecrementUndoesIncrement(member.booksCheckedOut);
  }

  /** A return by a member holding one book, as in the tests, leaves the member with none. */
  lemma ReturnOfOnlyBook(book: BookRecord, count: int32)
    requires count == 1
    ensures Decremented(count) == 0
    ensures OnShelf(Returned(book))
  {
  }
}
