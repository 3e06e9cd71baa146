/** The catalog of books and the title search over it (findBookByName). The
    catalog is an argument rather than a compiled-in constant. */
module Catalog {
  import opened Options
  import opened Text

  datatype Chapter = Chapter(number: int, title: string, content: string)

  datatype Book = Book(
    id: string,
    title: string,
    author: string,
    year: int,
    description: string,
    chapters: seq<Chapter>)

  /** The query normalisation findBookByName applies: trim, then lower-case. */
  function Normalize(query: string): string {
    Lower(Trim(query))
  }

  /** The test applied to each book: its lower-cased title contains q. */
  predicate Matches(b: Book, q: string) {
    Includes(Lower(b.title), q)
  }

  /** The position of the first book, at or after position `from`, whose title
      matches q (Array.prototype.find scans in catalog order). */
  function FirstMatchFrom(catalog: seq<Book>, q: string, from: nat): (r: Option<nat>)
    requires from <= |catalog|
    ensures r.Some? ==>
              && from <= r.value < |catalog| && Matches(catalog[r.value], q)
              && forall j :: from <= j < r.value ==> !Matches(catalog[j], q)
    ensures r.None? ==> forall j :: from <= j < |catalog| ==> !Matches(catalog[j], q)
    decreases |catalog| - from
  {
    if from == |catalog| then None
    else if Matches(catalog[from], q) then Some(from)
    else FirstMatchFrom(catalog, q, from + 1)
  }

  /** The position of the first matching book in the whole catalog. */
  function FirstMatch(catalog: seq<Book>, q: string): (r: Option<nat>)
    ensures r.Some? ==>
              && r.value < |catalog| && Matches(catalog[r.value], q)
              && forall j :: 0 <= j < r.value ==> !Matches(catalog[j], q)
    ensures r.None? <==> forall j :: 0 <= j < |catalog| ==> !Matches(catalog[j], q)
  {
    FirstMatchFrom(catalog, q, 0)
  }

  /** findBookByName: only the empty query is rejected outright; any other
      query is normalised and the first book whose title contains it is
      returned, or nothing. */
  function FindBookByName(catalog: seq<Book>, query: string): (r: Option<Book>)
    ensures r.Some? ==> query != [] && r.value in catalog && Matches(r.value, Normalize(query))
    ensures r.None? <==>
      query == [] || forall j :: 0 <= j < |catalog| ==> !Matches(catalog[j], Normalize(query))
  {
    if query == [] then None
    else
      match FirstMatch(catalog, Normalize(query))
      case None => None
      case Some(k) => Some(catalog[k])
  }

  /** A returned book comes from the catalog, its lower-cased title contains
      the normalised query, and no earlier book's title does. */
  lemma FindReturnsFirstMatch(catalog: seq<Book>, query: string, b: Book)
    requires FindBookByName(catalog, query) == Some(b)
    ensures query != []
    ensures exists k ::
              && 0 <= k < |catalog| && catalog[k] == b && Matches(b, Normalize(query))
              && forall j :: 0 <= j < k ==> !Matches(catalog[j], Normalize(query))
  {
    var k := FirstMatch(catalog, Normalize(query)).value;
    assert catalog[k] == b;
  }

  /** Conversely, when some title contains the normalised query of a
      non-empty query, the first such book is the one returned. */
  lemma FindSelectsFirst(catalog: seq<Book>, query: string, k: nat)
    requires query != []
    requires k < |catalog| && Matches(catalog[k], Normalize(query))
    requires forall j :: 0 <= j < k ==> !Matches(catalog[j], Normalize(query))
    ensures FindBookByName(catalog, query) == Some(catalog[k])
  {
  }

  /** Nothing is returned exactly when the query is empty or no title in the
      catalog contains the normalised query. */
  lemma FindNoneIff(catalog: seq<Book>, query: string)
    ensures FindBookByName(catalog, query) == None <==>
      query == [] || forall j :: 0 <= j < |catalog| ==> !Matches(catalog[j], Normalize(query))
  {
  }

  /** A query made only of white space (but not empty) trims to "", which
      every title contains, so findBookByName called directly returns the
      first book of a non-empty catalog. */
  lemma FindBlankReturnsFirstBook(catalog: seq<Book>, query: string)
    requires query != [] && forall i :: 0 <= i < |query| ==> IsWhite(query[i])
    requires catalog != []
    ensures FindBookByName(catalog, query) == Some(catalog[0])
  {
    TrimEmptyIff(query);
    assert Normalize(query) == [];
    IncludesEmpty(Lower(catalog[0].title));
  }
}
