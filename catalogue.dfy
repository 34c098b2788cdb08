/**
 * The book repository's queries, as functions over the catalogue: the sequence of
 * stored book records, in the order the repository returns them.
 */
module Catalogue {
  import opened Outcomes
  import opened Text
  import opened Entities

  /** The books of `catalogue` that satisfy `keep`, in catalogue order. */
  function Matching(catalogue: seq<BookRecord>, keep: BookRecord -> bool): (r: seq<BookRecord>)
    ensures |r| <= |catalogue|
    ensures forall b :: b in r <==> b in catalogue && keep(b)
    ensures |r| == |catalogue| <==> forall b :: b in catalogue ==> keep(b)
  {
    if catalogue == [] then []
    else
      var rest := Matching(catalogue[1..], keep);
      assert forall b :: b in catalogue <==> b == catalogue[0] || b in catalogue[1..];
      if keep(catalogue[0]) then [catalogue[0]] + rest else rest
  }

  /** A query over two runs of books is the query over the first run followed by the second. */
  lemma {:induction false} MatchingAppend(xs: seq<BookRecord>, ys: seq<BookRecord>, keep: BookRecord -> bool)
    ensures Matching(xs + ys, keep) == Matching(xs, keep) + Matching(ys, keep)
  {
    if xs != [] {
      assert (xs + ys)[0] == xs[0];
      assert (xs + ys)[1..] == xs[1..] + ys;
      MatchingAppend(xs[1..], ys, keep);
    } else {
      assert xs + ys == ys;
    }
  }

  /** A query keeps each matching book as often as the catalogue holds it, and no other book. */
  lemma {:induction false} MatchingCounts(catalogue: seq<BookRecord>, keep: BookRecord -> bool, b: BookRecord)
    ensures multiset(Matching(catalogue, keep))[b] == if keep(b) then multiset(catalogue)[b] else 0
  {
    if catalogue != [] {
      assert catalogue == [catalogue[0]] + catalogue[1..];
      MatchingCounts(catalogue[1..], keep, b);
    }
  }

  /** `findByTitleContainingIgnoreCase`: the books whose title contains the term, ignoring case. */
  function TitleMatches(catalogue: seq<BookRecord>, term: string): (r: seq<BookRecord>)
    ensures forall b :: b in r <==> b in catalogue && ContainsIgnoreCase(b.title, term)
  {
    Matching(catalogue, (b: BookRecord) => ContainsIgnoreCase(b.title, term))
  }

  /** `findByAuthor`: the books whose author is exactly the term. */
  function AuthorMatches(catalogue: seq<BookRecord>, term: string): (r: seq<BookRecord>)
    ensures forall b :: b in r <==> b in catalogue && b.author == term
  {
    Matching(catalogue, (b: BookRecord) => b.author == term)
  }

  /** `findByIsbn`: the first book with exactly this ISBN, if any. */
  function FindByIsbn(catalogue: seq<BookRecord>, isbn: string): (r: Option<BookRecord>)
    ensures r.Some? ==> r.value in catalogue && r.value.isbn == isbn
    ensures r.None? <==> forall b :: b in catalogue ==> b.isbn != isbn
  {
    if catalogue == [] then None
    else if catalogue[0].isbn == isbn then Some(catalogue[0])
    else
      assert forall b :: b in catalogue <==> b == catalogue[0] || b in catalogue[1..];
      FindByIsbn(catalogue[1..], isbn)
  }

  /** `findByDueDateBefore(today)`: books with a due date strictly before `today`. */
  function DueBefore(catalogue: seq<BookRecord>, today: int): (r: seq<BookRecord>)
    ensures forall b :: b in r <==> b in catalogue && b.dueDate.Some? && b.dueDate.value < today
  {
    Matching(catalogue, (b: BookRecord) => b.dueDate.Some? && b.dueDate.value < today)
  }

  /**
   * `countByStatus(AVAILABLE)`: never more than the catalogue holds, all of it exactly when
   * every book is available, and 0 exactly when none is.
   */
  function CountAvailable(catalogue: seq<BookRecord>): (r: nat)
    ensures r <= |catalogue|
    ensures r == |catalogue| <==> forall b :: b in catalogue ==> b.available
    ensures r == 0 <==> forall b :: b in catalogue ==> !b.available
  {
    var avail := Matching(catalogue, (b: BookRecord) => b.available);
    assert avail != [] ==> avail[0] in avail;
    |avail|
  }

  /** Adding a book to the catalogue adds one to the count exactly when that book is available. */
  lemma CountAvailableAppend(xs: seq<BookRecord>, b: BookRecord)
    ensures CountAvailable([]) == 0
    ensures CountAvailable(xs + [b]) == CountAvailable(xs) + if b.available then 1 else 0
  {
    MatchingAppend(xs, [b], (b: BookRecord) => b.available);
  }
}
