/** The interaction controller: doSearch's choice among the three views, and
    the per-chapter collapse flags of the book on show, changed by the chapter
    toggle, its key filter, "show all" and "collapse all". */
module Controller {
  import opened Options
  import opened Text
  import opened Catalog

  /** What the result area shows. */
  datatype View = Hint | NotFound(query: string) | Showing(book: Book)

  /** The chapters on show: none unless a book is shown. */
  function Chapters(v: View): seq<Chapter> {
    if v.Showing? then v.book.chapters else []
  }

  /** doSearch: trim the input; a blank input gives the hint, otherwise the
      trimmed query is looked up and either its book or the not-found message
      is shown. */
  function Search(catalog: seq<Book>, input: string): (v: View)
    ensures v == Hint <==> Trim(input) == []
    ensures v.NotFound? ==>
              && v.query == Trim(input)
              && forall j :: 0 <= j < |catalog| ==> !Matches(catalog[j], Normalize(input))
    ensures v.Showing? ==> v.book in catalog && Matches(v.book, Normalize(input))
  {
    NormalizeTrimmed(input);
    var q := Trim(input);
    if q == [] then Hint
    else
      match FindBookByName(catalog, q)
      case None => NotFound(q)
      case Some(b) => Showing(b)
  }

  /** doSearch passes the already-trimmed query to findBookByName, which
      trims again; the second trim changes nothing. */
  lemma NormalizeTrimmed(input: string)
    ensures Normalize(Trim(input)) == Normalize(input)
  {
    TrimIdempotent(input);
  }

  /** The hint is shown exactly when the input is empty or only white space,
      whatever the catalog: the lookup is then never consulted. */
  lemma SearchHintIff(catalog: seq<Book>, input: string)
    ensures Search(catalog, input) == Hint <==> forall i :: 0 <= i < |input| ==> IsWhite(input[i])
  {
    TrimEmptyIff(input);
  }

  /** The not-found message is shown exactly when the input is not blank and
      no title contains the normalised input; it carries the trimmed input. */
  lemma SearchNotFoundIff(catalog: seq<Book>, input: string)
    ensures Search(catalog, input).NotFound? <==>
      && Trim(input) != []
      && forall j :: 0 <= j < |catalog| ==> !Matches(catalog[j], Normalize(input))
    ensures Search(catalog, input).NotFound? ==> Search(catalog, input).query == Trim(input)
  {
    NormalizeTrimmed(input);
    FindNoneIff(catalog, Trim(input));
  }

  /** A shown book is the first catalog book whose title contains the
      normalised input. */
  lemma SearchShowsFirstMatch(catalog: seq<Book>, input: string)
    requires Search(catalog, input).Showing?
    ensures Trim(input) != []
    ensures exists k ::
              && 0 <= k < |catalog| && catalog[k] == Search(catalog, input).book
              && Matches(catalog[k], Normalize(input))
              && forall j :: 0 <= j < k ==> !Matches(catalog[j], Normalize(input))
  {
    NormalizeTrimmed(input);
    FindReturnsFirstMatch(catalog, Trim(input), Search(catalog, input).book);
  }

  /** Conversely, for a non-blank input the first matching book is shown. */
  lemma SearchShowsMatch(catalog: seq<Book>, input: string, k: nat)
    requires Trim(input) != []
    requires k < |catalog| && Matches(catalog[k], Normalize(input))
    requires forall j :: 0 <= j < k ==> !Matches(catalog[j], Normalize(input))
    ensures Search(catalog, input) == Showing(catalog[k])
  {
    NormalizeTrimmed(input);
    FindSelectsFirst(catalog, Trim(input), k);
  }

  /** The flags after one chapter's body has its `collapsed` class toggled. */
  function Flip(flags: seq<bool>, i: nat): (r: seq<bool>)
    requires i < |flags|
    ensures |r| == |flags| && r[i] == !flags[i]
    ensures forall j :: 0 <= j < |flags| && j != i ==> r[j] == flags[j]
  {
    flags[i := !flags[i]]
  }

  /** The flags after chapter i has been toggled n times. */
  function FlipTimes(flags: seq<bool>, i: nat, n: nat): (r: seq<bool>)
    requires i < |flags|
    ensures |r| == |flags|
  {
    if n == 0 then flags else Flip(FlipTimes(flags, i, n - 1), i)
  }

  /** Toggling twice restores the flags. */
  lemma FlipTwice(flags: seq<bool>, i: nat)
    requires i < |flags|
    ensures Flip(Flip(flags, i), i) == flags
  {
  }

  /** Toggling chapter i n times leaves every other chapter as it was, and
      leaves chapter i as it was exactly when n is even. */
  lemma {:induction false} FlipTimesParity(flags: seq<bool>, i: nat, n: nat)
    requires i < |flags|
    ensures FlipTimes(flags, i, n)[i] == (if n % 2 == 0 then flags[i] else !flags[i])
    ensures forall j :: 0 <= j < |flags| && j != i ==> FlipTimes(flags, i, n)[j] == flags[j]
  {
    if n > 0 {
      FlipTimesParity(flags, i, n - 1);
    }
  }

  /** Every flag set to the same value. */
  function Filled(n: nat, value: bool): seq<bool> {
    seq(n, _ => value)
  }

  /** Starting from a freshly rendered book (all collapsed), a chapter toggled
      an odd number of times is open and one toggled an even number of times
      is collapsed. */
  lemma RenderedThenToggled(n: nat, i: nat, times: nat)
    requires i < n
    ensures FlipTimes(Filled(n, true), i, times)[i] == (times % 2 == 0)
  {
    FlipTimesParity(Filled(n, true), i, times);
  }

  /** The keys that activate a chapter title bar. */
  predicate IsActivationKey(key: string) {
    key == "Enter" || key == " "
  }

  /** The flags after a key press on chapter i's title bar. */
  function KeyEffect(flags: seq<bool>, i: nat, key: string): (r: seq<bool>)
    requires i < |flags|
    ensures |r| == |flags| && (r == flags <==> !IsActivationKey(key))
    ensures forall j :: 0 <= j < |flags| && j != i ==> r[j] == flags[j]
  {
    if IsActivationKey(key) then Flip(flags, i) else flags
  }

  /** A key press changes the flags exactly when the key is Enter or Space,
      and then it changes only flag i. */
  lemma KeyEffectIff(flags: seq<bool>, i: nat, key: string)
    requires i < |flags|
    ensures KeyEffect(flags, i, key) != flags <==> IsActivationKey(key)
    ensures forall j :: 0 <= j < |flags| && j != i ==> KeyEffect(flags, i, key)[j] == flags[j]
  {
    if IsActivationKey(key) {
      assert KeyEffect(flags, i, key)[i] != flags[i];
    }
  }

  /** The result area and the collapse flags of its chapter bodies. */
  class ResultArea {
    const catalog: seq<Book>
    var view: View
    var collapsed: array<bool>

    /** There is one flag per chapter on show. */
    ghost predicate Valid()
      reads this
    {
      collapsed.Length == |Chapters(view)|
    }

    /** Start-up: the hint is rendered. */
    constructor (catalog: seq<Book>)
      ensures Valid() && this.catalog == catalog
      ensures view == Hint && collapsed.Length == 0
    {
      this.catalog := catalog;
      view := Hint;
      collapsed := new bool[0];
    }

    /** renderHint: the hint replaces the result area. */
    method RenderHint()
      modifies this
      ensures Valid() && view == Hint && fresh(collapsed)
    {
      view := Hint;
      collapsed := new bool[0];
    }

    /** renderNotFound: the message for query q replaces the result area. */
    method RenderNotFound(q: string)
      modifies this
      ensures Valid() && view == NotFound(q) && fresh(collapsed)
    {
      view := NotFound(q);
      collapsed := new bool[0];
    }

    /** renderBook: the book replaces the result area and every chapter body
        starts collapsed. */
    method RenderBook(book: Book)
      modifies this
      ensures Valid() && view == Showing(book) && fresh(collapsed)
      ensures collapsed[..] == Filled(|book.chapters|, true)
    {
      view := Showing(book);
      collapsed := new bool[|book.chapters|](_ => true);
    }

    /** doSearch: the view becomes the one Search selects and the previous
        flags are discarded; every chapter on show starts collapsed. */
    method DoSearch(input: string)
      modifies this
      ensures Valid() && view == Search(catalog, input) && fresh(collapsed)
      ensures collapsed[..] == Filled(|Chapters(view)|, true)
    {
      var q := Trim(input);
      if q == [] {
        RenderHint();
        return;
      }
      var book := FindBookByName(catalog, q);
      if book.None? {
        RenderNotFound(q);
        return;
      }
      RenderBook(book.value);
    }

    /** A click on chapter i's title bar toggles that chapter's flag. */
    method Toggle(i: nat)
      requires Valid() && i < collapsed.Length
      modifies collapsed
      ensures Valid() && view == old(view)
      ensures collapsed[..] == Flip(old(collapsed[..]), i)
    {
      collapsed[i] := !collapsed[i];
    }

    /** A key press on chapter i's title bar: Enter and Space toggle the
        chapter and suppress the key's default action; other keys do
        nothing. */
    method KeyDown(i: nat, key: string) returns (prevented: bool)
      requires Valid() && i < collapsed.Length
      modifies collapsed
      ensures Valid() && view == old(view)
      ensures prevented == IsActivationKey(key)
      ensures collapsed[..] == KeyEffect(old(collapsed[..]), i, key)
    {
      prevented := false;
      if key == "Enter" || key == " " {
        prevented := true;
        Toggle(i);
      }
    }

    /** The forEach over all chapter bodies that adds or removes the
        `collapsed` class. */
    method SetAll(value: bool)
      requires Valid()
      modifies collapsed
      ensures Valid() && view == old(view)
      ensures collapsed[..] == Filled(collapsed.Length, value)
    {
      var k := 0;
      while k < collapsed.Length
        invariant 0 <= k <= collapsed.Length
        invariant forall j :: 0 <= j < k ==> collapsed[j] == value
      {
        collapsed[k] := value;
        k := k + 1;
      }
    }

    /** "Show all": every chapter open, whatever the flags were before. */
    method ShowAll()
      requires Valid()
      modifies collapsed
      ensures Valid() && view == old(view)
      ensures collapsed[..] == Filled(collapsed.Length, false)
    {
      SetAll(false);
    }

    /** "Collapse all": every chapter collapsed, whatever the flags were
        before. */
    method CollapseAll()
      requires Valid()
      modifies collapsed
      ensures Valid() && view == old(view)
      ensures collapsed[..] == Filled(collapsed.Length, true)
    {
      SetAll(true);
    }
  }

  /** A session as a caller sees it through the contracts alone: a search
      shows its book collapsed, a double toggle restores a chapter, and "show
      all" and "collapse all" are idempotent. */
  method Session(catalog: seq<Book>, input: string) returns (c: ResultArea)
    ensures fresh(c) && c.Valid() && c.view == Search(catalog, input)
    ensures c.collapsed[..] == Filled(|Chapters(c.view)|, true)
  {
    c := new ResultArea(catalog);
    c.DoSearch(input);
    if c.collapsed.Length > 0 {
      var before := c.collapsed[..];
      c.Toggle(0);
      assert !c.collapsed[0];
      c.Toggle(0);
      assert c.collapsed[..] == before;
      var prevented := c.KeyDown(0, "Tab");
      assert !prevented && c.collapsed[..] == before;
      c.ShowAll();
      var shown := c.collapsed[..];
      c.ShowAll();
      assert c.collapsed[..] == shown;
      c.CollapseAll();
      var collapsedAll := c.collapsed[..];
      c.CollapseAll();
      assert c.collapsed[..] == collapsedAll == before;
    }
  }
}
