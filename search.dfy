/** `SearchFacade.search`: validates the search type and dispatches to one lookup. */
module Search {
  import opened Outcomes
  import opened Text
  import opened Entities
  import opened Catalogue

  const InvalidSearchType := "Invalid search type"

  /**
   * `search(term, type)`: a null type, or one that is none of "title", "author" and "isbn"
   * once lower-cased, fails; the isbn lookup's optional result becomes a list of at most one.
   */
  function Search(catalogue: seq<BookRecord>, term: string, searchType: Option<string>): (r: Result<seq<BookRecord>>)
    ensures r.Err? <==> searchType.None? || Lower(searchType.value) !in {"title", "author", "isbn"}
    ensures r.Err? ==> r.error == IllegalArgument(InvalidSearchType)
    ensures r.Ok? ==> forall b :: b in r.value ==> b in catalogue
  {
    if searchType.None? then Err(IllegalArgument(InvalidSearchType))
    else
      var kind := Lower(searchType.value);
      if kind == "title" then Ok(TitleMatches(catalogue, term))
      else if kind == "author" then Ok(AuthorMatches(catalogue, term))
      else if kind == "isbn" then
        match FindByIsbn(catalogue, term)
        case Some(b) => Ok([b])
        case None => Ok([])
      else Err(IllegalArgument(InvalidSearchType))
  }

  /** The type token is compared without regard to case. */
  lemma SearchIgnoresTypeCase(catalogue: seq<BookRecord>, term: string, t1: string, t2: string)
    requires Lower(t1) == Lower(t2)
    ensures Search(catalogue, term, Some(t1)) == Search(catalogue, term, Some(t2))
  {
  }

  /** "title" returns the books whose title contains the term as given, ignoring case. */
  lemma SearchByTitle(catalogue: seq<BookRecord>, term: string, searchType: string)
    requires Lower(searchType) == "title"
    ensures Search(catalogue, term, Some(searchType)) == Ok(TitleMatches(catalogue, term))
    ensures forall b :: b in Search(catalogue, term, Some(searchType)).value <==> b in catalogue && ContainsIgnoreCase(b.title, term)
  {
  }

  /** "author" returns the books whose author is exactly the term as given. */
  lemma SearchByAuthor(catalogue: seq<BookRecord>, term: string, searchType: string)
    requires Lower(searchType) == "author"
    ensures Search(catalogue, term, Some(searchType)) == Ok(AuthorMatches(catalogue, term))
    ensures forall b :: b in Search(catalogue, term, Some(searchType)).value <==> b in catalogue && b.author == term
  {
  }

  /** "isbn" returns at most one book: one with that ISBN if the catalogue has any, none otherwise. */
  lemma SearchByIsbn(catalogue: seq<BookRecord>, term: string, searchType: string)
    requires Lower(searchType) == "isbn"
    ensures Search(catalogue, term, Some(searchType)).Ok?
    ensures |Search(catalogue, term, Some(searchType)).value| <= 1
    ensures Search(catalogue, term, Some(searchType)).value == [] <==> forall b :: b in catalogue ==> b.isbn != term
    ensures forall b :: b in Search(catalogue, term, Some(searchType)).value ==> b in catalogue && b.isbn == term
  {
  }
}
