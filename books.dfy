/** `BookService`: lending a book out and taking it back. */
module Books {
  import opened Outcomes
  import opened Entities

  /** Two records describe the same catalogue entry: id, ISBN, title and author agree. */
  predicate SameEntry(a: BookRecord, b: BookRecord)
  {
    a.id == b.id && a.isbn == b.isbn && a.title == b.title && a.author == b.author
  }

  /** On the shelf: available, with no holder and no due date. */
  predicate OnShelf(b: BookRecord)
  {
    b.available && b.checkedOutBy.None? && b.dueDate.None?
  }

  /** Lent to `holder` until day `due`. */
  predicate OnLoanTo(b: BookRecord, holder: string, due: int)
  {
    !b.available && b.checkedOutBy == Some(holder) && b.dueDate == Some(due)
  }

  /** A book is unavailable exactly when it has both a holder and a due date. */
  predicate LendingConsistent(b: BookRecord)
  {
    OnShelf(b) || (!b.available && b.checkedOutBy.Some? && b.dueDate.Some?)
  }

  /**
   * The record `checkoutBook` leaves behind: unavailable, held by `holder` (which is null when
   * the member's email is) until `due`.
   */
  function CheckedOut(b: BookRecord, holder: Option<string>, due: int): (r: BookRecord)
    ensures !r.available && r.checkedOutBy == holder && r.dueDate == Some(due) && SameEntry(b, r)
    ensures holder.Some? ==> OnLoanTo(r, holder.value, due)
  {
    b.(checkedOutBy := holder, dueDate := Some(due), available := false)
  }

  /** The record `returnBook` leaves behind. */
  function Returned(b: BookRecord): (r: BookRecord)
    ensures OnShelf(r) && SameEntry(b, r)
  {
    b.(checkedOutBy := None, dueDate := None, available := true)
  }

  /** Lending out then taking back puts a shelved book back exactly as it was. */
  lemma ReturnUndoesCheckout(b: BookRecord, holder: Option<string>, due: int)
    requires OnShelf(b)
    ensures Returned(CheckedOut(b, holder, due)) == b
  {
  }

  /** Taking a book back twice is the same as taking it back once. */
  lemma ReturnIdempotent(b: BookRecord)
    ensures Returned(Returned(b)) == Returned(b)
  {
  }

  /**
   * A return always leaves the record consistent, whatever state it was in before. A checkout
   * does so exactly when there is a holder: lending to a member whose email is null leaves the
   * book unavailable with no holder.
   */
  lemma TransitionsKeepConsistency(b: BookRecord, holder: Option<string>, due: int)
    ensures LendingConsistent(CheckedOut(b, holder, due)) <==> holder.Some?
    ensures holder.None? ==> !CheckedOut(b, holder, due).available && CheckedOut(b, holder, due).checkedOutBy.None?
    ensures LendingConsistent(Returned(b)) && Returned(b).available
  {
  }

  /** The book repository, seen only through its `save` calls, which it records in order. */
  class BookRepository {
    var saved: seq<BookRecord>

    constructor ()
      ensures saved == []
    {
      saved := [];
    }

    /** `save`: persists the book's current fields. */
    method Save(book: Book)
      modifies this
      ensures saved == old(saved) + [book.Record()]
    {
      saved := saved + [book.Record()];
    }
  }

  class BookService {
    const repository: BookRepository

    constructor (repository: BookRepository)
      ensures this.repository == repository
    {
      this.repository := repository;
    }

    /**
     * `checkoutBook`: records the member's email as holder, the due date `today + loanPeriodDays`
     * and unavailability, then saves the book once. It checks nothing: whether the book may be
     * lent is its caller's decision.
     */
    method CheckoutBook(book: Book, member: Member, loanPeriodDays: int, today: int)
      modifies book, repository
      ensures book.Record() == CheckedOut(old(book.Record()), member.email, today + loanPeriodDays)
      ensures repository.saved == old(repository.saved) + [book.Record()]
    {
      book.checkedOutBy := member.email;
      book.dueDate := Some(today + loanPeriodDays);
      book.available := false;
      repository.Save(book);
    }

    /** `returnBook`: clears holder and due date, marks the book available, saves it once. */
    method ReturnBook(book: Book)
      modifies book, repository
      ensures book.Record() == Returned(old(book.Record()))
      ensures repository.saved == old(repository.saved) + [book.Record()]
    {
      book.checkedOutBy := None;
      book.dueDate := None;
      book.available := true;
      repository.Save(book);
    }

    /** `isAvailable`: reads the flag and changes nothing. */
    method IsAvailable(book: Book) returns (r: bool)
      ensures r == book.available
      ensures LendingConsistent(book.Record()) ==> (r <==> OnShelf(book.Record()))
    {
      r := book.available;
    }
  }
}
