/** The sample catalog of the browser, with its third chapter's content
    written as a proper string, and sample searches over it: "jungle",
    "  JUNGLE BOOK  ", "dune" and "". */
module Scenarios {
  import opened Options
  import opened Text
  import opened Catalog
  import opened Controller
  import opened Escape
  import opened Markup

  const JungleBook: Book := Book(
    "jungle-book",
    "The Jungle Book",
    "Rudyard Kipling (sample)",
    1894,
    "A collection of stories set in the Indian jungle. Below are sample chapters (shortened for example).",
    [ Chapter(1, "Mowgli's Brothers", "When the human child was left in the wolf-pack he was accepted by the wolves as one of themselves.\n\nBagheera brought him gifts and taught stealth."),
      Chapter(2, "Kaa's Hunting", "Baloo and Bagheera escort Mowgli through the jungle to safety.\n\nKaa weaves a hypnotic coil."),
      Chapter(3, "Tiger! Tiger!", "When he returns to man-village, Mowgli faces Shere Khan.") ])

  const Sample: seq<Book> := [JungleBook]

  /** The case-folded title the search compares against. */
  lemma FoldedTitle()
    ensures Lower(JungleBook.title) == "the jungle book"
  {
  }

  /** "jungle" trims and folds to itself. */
  lemma JungleNormalizes()
    ensures Trim("jungle") == "jungle" && Normalize("jungle") == "jungle"
  {
    assert Trim("jungle") == "jungle" by {
      TrimPadded("", "jungle", "");
      assert "" + "jungle" + "" == "jungle";
    }
    LowerIdentity("jungle");
  }

  /** The folded title contains "jungle". */
  lemma TitleHasJungle()
    ensures Matches(JungleBook, "jungle")
  {
    FoldedTitle();
    assert OccursAt("the jungle book", "jungle", 4);
    IncludesIff("the jungle book", "jungle");
  }

  /** The sample book's chapters, numbered 1 to 3 in display order. */
  lemma JungleChapters()
    ensures |JungleBook.chapters| == 3
    ensures forall k :: 0 <= k < 3 ==> JungleBook.chapters[k].number == k + 1
    ensures JungleBook.chapters[0].title == "Mowgli's Brothers"
    ensures JungleBook.chapters[1].title == "Kaa's Hunting"
    ensures JungleBook.chapters[2].title == "Tiger! Tiger!"
  {
  }

  /** "jungle" finds The Jungle Book, shown with its three chapters. */
  lemma SearchJungle()
    ensures Search(Sample, "jungle") == Showing(JungleBook)
    ensures Chapters(Search(Sample, "jungle")) == JungleBook.chapters
  {
    JungleNormalizes();
    TitleHasJungle();
    SearchShowsMatch(Sample, "jungle", 0);
  }

  /** The padded, upper-case query trims and folds to "jungle book". */
  lemma PaddedQueryNormalizes()
    ensures Trim("  JUNGLE BOOK  ") == "JUNGLE BOOK"
    ensures Normalize("  JUNGLE BOOK  ") == "jungle book"
  {
    assert Trim("  JUNGLE BOOK  ") == "JUNGLE BOOK" by {
      TrimPadded("  ", "JUNGLE BOOK", "  ");
      assert "  " + "JUNGLE BOOK" + "  " == "  JUNGLE BOOK  ";
    }
    FoldedQuery();
  }

  /** Folding the trimmed query. */
  lemma FoldedQuery()
    ensures Lower("JUNGLE BOOK") == "jungle book"
  {
  }

  /** The folded title contains "jungle book". */
  lemma TitleHasJungleBook()
    ensures Matches(JungleBook, "jungle book")
  {
    FoldedTitle();
    assert OccursAt("the jungle book", "jungle book", 4);
    IncludesIff("the jungle book", "jungle book");
  }

  /** Padding and upper case do not matter: "  JUNGLE BOOK  " finds the same
      book. */
  lemma SearchPaddedUpperCase()
    ensures Search(Sample, "  JUNGLE BOOK  ") == Showing(JungleBook)
  {
    PaddedQueryNormalizes();
    TitleHasJungleBook();
    SearchShowsMatch(Sample, "  JUNGLE BOOK  ", 0);
  }

  /** "dune" trims and folds to itself. */
  lemma DuneNormalizes()
    ensures Trim("dune") == "dune" && Normalize("dune") == "dune"
  {
    assert Trim("dune") == "dune" by {
      TrimPadded("", "dune", "");
      assert "" + "dune" + "" == "dune";
    }
    LowerIdentity("dune");
  }

  /** The folded title has no "d", so it does not contain "dune". */
  lemma TitleLacksDune()
    ensures !Matches(JungleBook, "dune")
  {
    assert 'd' !in "the jungle book";
    IncludesNeedsFirstChar("the jungle book", "dune");
    FoldedTitle();
  }

  /** "dune" finds nothing and the message carries "dune". */
  lemma SearchDune()
    ensures Search(Sample, "dune") == NotFound("dune")
  {
    DuneNormalizes();
    TitleLacksDune();
    assert |Sample| == 1 && Sample[0] == JungleBook;
    assert forall j :: 0 <= j < |Sample| ==> !Matches(Sample[j], Normalize("dune"));
    SearchNotFoundIff(Sample, "dune");
  }

  /** The not-found message for "dune" shows "dune" itself, which has nothing
      to escape. */
  lemma DuneMessage()
    ensures EscapeHtml("dune") == "dune"
    ensures NotFoundHtml("dune") == NotFoundPrefix + "dune" + NotFoundSuffix
  {
    EscapeIdentityOnSafe("dune");
  }

  /** The empty query shows the hint. */
  lemma SearchEmpty()
    ensures Search(Sample, "") == Hint
  {
    SearchHintIff(Sample, "");
  }
}
