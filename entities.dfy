/** The library's entities: membership tiers, members and books. */
module Entities {
  import opened Outcomes

  /** `MembershipType`. */
  datatype Tier = Regular | Premium | Student

  /** Java's 32-bit `int`. */
  newtype int32 = x: int | -0x8000_0000 <= x < 0x8000_0000

  const INT32_MIN: int32 := -0x8000_0000
  const INT32_MAX: int32 := 0x7fff_ffff

  /** Two's-complement wrap-around of an exact result into Java's `int`. */
  function Wrap32(x: int): (r: int32)
    ensures INT32_MIN as int <= x <= INT32_MAX as int ==> r as int == x
    ensures x == INT32_MAX as int + 1 ==> r == INT32_MIN
    ensures x == INT32_MIN as int - 1 ==> r == INT32_MAX
  {
    ((x + 0x8000_0000) % 0x1_0000_0000 - 0x8000_0000) as int32
  }

  /**
   * The fields of a member at one moment; what the member repository stores.
   * The email may be null: nothing in the services checks it.
   */
  datatype MemberRecord = MemberRecord(
    id: Option<int>,
    email: Option<string>,
    name: string,
    status: Option<string>,
    tier: Tier,
    booksCheckedOut: int32)

  /**
   * The fields of a book at one moment; what the book repository stores.
   * `available` is the book's status: true for AVAILABLE, false for CHECKED_OUT.
   * Dates are day numbers.
   */
  datatype BookRecord = BookRecord(
    id: Option<int>,
    isbn: string,
    title: string,
    author: string,
    checkedOutBy: Option<string>,
    dueDate: Option<int>,
    available: bool)

  /** A member entity, updated in place by the member service. */
  class Member {
    var id: Option<int>
    var email: Option<string>
    var name: string
    var status: Option<string>
    var tier: Tier
    var booksCheckedOut: int32

    function Record(): MemberRecord
      reads this
    {
      MemberRecord(id, email, name, status, tier, booksCheckedOut)
    }

    constructor (r: MemberRecord)
      ensures Record() == r
    {
      id, email, name, status := r.id, r.email, r.name, r.status;
      tier, booksCheckedOut := r.tier, r.booksCheckedOut;
    }
  }

  /** A book entity, updated in place by the book service. */
  class Book {
    var id: Option<int>
    var isbn: string
    var title: string
    var author: string
    var checkedOutBy: Option<string>
    var dueDate: Option<int>
    var available: bool

    function Record(): BookRecord
      reads this
    {
      BookRecord(id, isbn, title, author, checkedOutBy, dueDate, available)
    }

    constructor (r: BookRecord)
      ensures Record() == r
    {
      id, isbn, title, author := r.id, r.isbn, r.title, r.author;
      checkedOutBy, dueDate, available := r.checkedOutBy, r.dueDate, r.available;
    }
  }
}
