# libraX book browser: the search-and-render core in Dafny

The browser holds a catalog of books, each with chapters. A user types a
title fragment. The page then shows one of three things in its result
area: a hint, a "no book found" message echoing the query, or the first
matching book with its chapters collapsed. Each chapter's title bar toggles
its body, by click or by the Enter or Space key. "Show all chapters" opens
every body; "Collapse all" closes every body.

This project models that core of `script.java` (a browser script) and proves
its properties:

- `Text`: the string primitives the search uses: `trim`, ASCII `toLowerCase`
  and `includes`, with `includes` proved equal to "occurs at some position".
- `Catalog`: the `Book` and `Chapter` records and `findBookByName`. The catalog
  is a parameter, not the compiled-in literal.
- `Escape`: `escapeHtml` and a decoder for its five entities. Proved: the
  round trip, injectivity, identity on text without the five characters,
  and the safety of the output.
- `Markup`: the chapter body (escaped content, every line feed turned into
  `<br>`) and the not-found message that echoes the escaped query.
- `Controller`: `doSearch` as the function `Search` that picks the view. The
  class `ResultArea` holds the current view and an `array<bool>` of
  per-chapter `collapsed` flags. Its methods render, search, toggle, filter
  keys, show all and collapse all.
- `Scenarios`: the sample book and the searches "jungle",
  "  JUNGLE BOOK  ", "dune" and "".

`findBookByName` itself rejects only the empty string; it does not reject a
query made only of white space. Such a query trims to "", which every title
contains, so the function returns the first book
(`Catalog.FindBlankReturnsFirstBook`). Through `doSearch` a blank query never
reaches the lookup, because `doSearch` trims first and shows the hint
(`Controller.SearchHintIff`).

The title-bar key handler suppresses the key's default action for Enter as
well as for Space: it calls `preventDefault` before toggling on either key
(script.java:103). `ResultArea.KeyDown` returns that flag for both keys.

## Model

| member | source | states |
|---|---|---|
| Text.Trim | script.java:39 | the result is never longer than the input, neither starts nor ends with white space, and is empty exactly when the input is all white space (`Text.SkipLeading`, `Text.SkipTrailing` and `Text.TrimPadded` give where it is cut) |
| Text.SkipLeading | script.java:39 | the result is the first position from i on that is not white space, or the end; everything skipped is white space |
| Text.SkipTrailing | script.java:39 | the result is the smallest end at or after `lo` such that only white space follows it up to j; the character before it, if any after `lo`, is not white space |
| Text.TrimEmptyIff | script.java:123-124 | an input trims to "" exactly when every character of it is white space |
| Text.TrimIdempotent | script.java:123 | trimming an already trimmed query changes nothing |
| Text.TrimPadded | script.java:39 | trimming strips exactly the white-space padding around a text that neither starts nor ends with white space |
| Text.Lower | script.java:39-40 | the result has the input's length and no upper-case ASCII letter; each upper-case ASCII letter becomes its lower-case form and every other character is kept |
| Text.LowerIdentity | script.java:39-40 | lower-casing leaves text without upper-case ASCII letters unchanged |
| Text.LowerIdempotent | script.java:39-40 | lower-casing leaves no upper-case ASCII letter, and lower-casing again changes nothing |
| Text.Includes | script.java:40 | the empty string is always included, and an included string is never longer than the text (`Text.IncludesIff` gives the full meaning) |
| Text.IncludesIff | script.java:40 | `includes(s, t)` holds exactly when t occurs in s at some position |
| Text.IncludesNeedsFirstChar | script.java:40 | a string that lacks the first character of t does not include t |
| Text.IncludesEmpty | script.java:40 | every string includes the empty string |
| Catalog.FirstMatchFrom | script.java:40 | the result is the first position at or after `from` whose lower-cased title contains the query, or none when no such position exists |
| Catalog.FirstMatch | script.java:40 | the result is the first catalog position whose title matches; it is none exactly when no title matches |
| Catalog.FindBookByName | script.java:37-41 | a returned book is in the catalog, the query was not empty, and the book's lower-cased title contains the normalised query; nothing is returned exactly when the query is empty or no title contains it (`Catalog.FindReturnsFirstMatch` adds that it is the first such book) |
| Catalog.FindReturnsFirstMatch | script.java:37-41 | a returned book comes from the catalog, its lower-cased title contains the trimmed lower-cased query, no earlier book's title does, and the query was not empty |
| Catalog.FindSelectsFirst | script.java:38-40 | for a non-empty query, the first book whose title contains the normalised query is the one returned |
| Catalog.FindNoneIff | script.java:38-40 | nothing is returned exactly when the query is empty or no title contains the normalised query |
| Catalog.FindBlankReturnsFirstBook | script.java:38-40 | a non-empty query made only of white space returns the first book of a non-empty catalog |
| Escape.EntityOf | script.java:58 | a character is kept as itself exactly when it is not one of the five special characters; otherwise its replacement is longer than one character and runs from `&` to `;` |
| Escape.EscapeHtml | script.java:57-59 | the output is never shorter than the input, and is empty exactly when the input is |
| Escape.Unescape | script.java:58 | the decoder of the five entities never lengthens its input |
| Escape.EscapeIdentityOnSafe | script.java:58 | escaping is the identity on text holding none of `& < > " '` |
| Escape.EscapeChangesUnsafe | script.java:58 | escaping changes any text that holds one of the five characters |
| Escape.EscapeLength | script.java:58 | escaping keeps the length exactly when the input holds none of the five characters |
| Escape.EscapeIsSafe | script.java:58 | the output has no `<`, `>`, `"` or `'`, and every `&` in it begins one of `&amp; &lt; &gt; &quot; &#39;` |
| Escape.UnescapeEscape | script.java:58 | decoding the five entities recovers the original text |
| Escape.EscapeInjective | script.java:58 | two texts with the same escape are equal |
| Markup.NewlinesToBreaks | script.java:86 | the output is never shorter than the input |
| Markup.BreaksToNewlines | script.java:86 | reading `<br>` back as a line feed never lengthens the text |
| Markup.NewlinesToBreaksShape | script.java:86 | on text without `<`, `>` or quotes, the output has no line feed and no quote; every `<` opens a `<br>` and every `>` closes one |
| Markup.BreaksRoundTrip | script.java:86 | on text without `<`, reading the `<br>`s back recovers the text |
| Markup.ChapterBodyHtml | script.java:86 | a chapter body has no line feed and no quote; every `<` opens a `<br>` and every `>` closes one; reading back its breaks and entities gives the content |
| Markup.NotFoundHtml | script.java:52-54 | the not-found message is its fixed prefix, the escaped query and its fixed suffix; the query part is safe text and decodes to the query |
| Controller.Search | script.java:122-134 | the hint exactly when the input trims to ""; a not-found view carries the trimmed input and then no title matches; a shown book is in the catalog and matches the normalised input (`Controller.SearchShowsFirstMatch` adds that it is the first) |
| Controller.NormalizeTrimmed | script.java:123-128 | normalising the trimmed query gives the same text as normalising the raw input |
| Controller.SearchHintIff | script.java:123-126 | the hint is shown exactly when the input is empty or only white space, for every catalog |
| Controller.SearchNotFoundIff | script.java:128-131 | the not-found message is shown exactly when the input is not blank and no title contains the normalised input; it carries the trimmed input |
| Controller.SearchShowsFirstMatch | script.java:128-133 | a shown book is the first catalog book whose title contains the normalised input |
| Controller.SearchShowsMatch | script.java:128-133 | for a non-blank input the first matching book is the one shown |
| Controller.Flip | script.java:98-100 | toggling chapter i negates flag i and keeps every other flag and the number of flags |
| Controller.FlipTimes | script.java:98-100 | toggling one chapter any number of times keeps the number of flags |
| Controller.FlipTwice | script.java:98-100 | toggling a chapter twice restores the flags |
| Controller.FlipTimesParity | script.java:98-100 | after n toggles of chapter i, every other flag is unchanged and flag i is unchanged exactly when n is even |
| Controller.RenderedThenToggled | script.java:85-100 | from a fresh render, a chapter toggled an odd number of times is open and one toggled an even number of times is collapsed |
| Controller.KeyEffect | script.java:102-104 | a key press keeps the number of flags, changes them exactly when the key is "Enter" or " ", and never changes another chapter's flag |
| Controller.KeyEffectIff | script.java:102-104 | a key press changes the flags exactly when the key is "Enter" or " ", and changes no other chapter's flag |
| Controller.ResultArea.constructor | script.java:142-143 | at start-up the hint is shown and there are no chapter flags |
| Controller.ResultArea.RenderHint | script.java:48-50 | the hint replaces the result area and the previous flags are discarded |
| Controller.ResultArea.RenderNotFound | script.java:52-54 | the not-found view for the query replaces the result area and the previous flags are discarded |
| Controller.ResultArea.RenderBook | script.java:77-91 | the book replaces the result area with one new flag per chapter, all collapsed |
| Controller.ResultArea.DoSearch | script.java:122-134 | the view becomes `Search(catalog, input)` and every chapter on show starts collapsed in a fresh array |
| Controller.ResultArea.Toggle | script.java:98-100 | the flags become `Flip(old flags, i)`: flag i is negated and nothing else changes; the view and the one-flag-per-chapter invariant are kept |
| Controller.ResultArea.KeyDown | script.java:102-104 | the default action is suppressed and the chapter toggled exactly when the key is "Enter" or " "; otherwise the flags are unchanged; the view and the one-flag-per-chapter invariant are kept |
| Controller.ResultArea.SetAll | script.java:111 | every flag is set to the given value, whatever it was before; the view and the one-flag-per-chapter invariant are kept |
| Controller.ResultArea.ShowAll | script.java:110-115 | every flag becomes false (open), whatever the flags were, so a second call changes nothing; the view and the one-flag-per-chapter invariant are kept |
| Controller.ResultArea.CollapseAll | script.java:116-118 | every flag becomes true (collapsed), whatever the flags were, so a second call changes nothing; the view and the one-flag-per-chapter invariant are kept |
| Controller.Session | script.java:95-118 | through the contracts alone: a search shows its book collapsed, a double toggle restores a chapter, another key changes nothing, and both bulk actions are idempotent |
| Scenarios.JungleChapters | script.java:9-32 | the sample book has three chapters numbered 1 to 3 with titles "Mowgli's Brothers", "Kaa's Hunting" and "Tiger! Tiger!" |
| Scenarios.SearchJungle | script.java:122-134 | "jungle" shows the sample book with its three chapters |
| Scenarios.SearchPaddedUpperCase | script.java:39-40 | "  JUNGLE BOOK  " is trimmed and folded and shows the same book |
| Scenarios.SearchDune | script.java:128-131 | "dune" gives the not-found view carrying "dune" |
| Scenarios.DuneMessage | script.java:53 | the not-found message for "dune" echoes "dune" unchanged |
| Scenarios.SearchEmpty | script.java:123-126 | the empty query gives the hint |

## Left out

- DOM access and event wiring are not modelled: element look-ups, `addEventListener`, `innerHTML` assignment and the search button and input key handlers. Their effect is modelled as the `ResultArea` view and flags. `preventDefault` is modelled as the flag `KeyDown` returns.
- Smooth scrolling to the first chapter on "show all" is a visual effect with no state, so it is not modelled.
- The hint markup is the constant `Markup.HintHtml`; the view records only that the hint is shown (`Controller.View.Hint`), not the markup itself.
- The markup layout of the book header and chapter articles is not modelled. The header fields (title, author, year, description) and chapter titles also pass through `escapeHtml`; the model states the escaping only for the chapter body and the not-found query.
- `escapeHtml`'s `s+''` coercion of non-strings is not modelled: the escaper takes strings only. In the model the year stays an integer; the header that shows it is not modelled.
- The compiled-in `BOOKS` literal is not modelled; the catalog is a parameter. The literal is not well formed: chapter 3's content lacks quotes, and some templates lack backticks. `Scenarios` uses the sample book with chapter 3 quoted and chapter contents shortened.
- Text.Lower: folds only ASCII A-Z. The model does not capture full Unicode `toLowerCase`.
- `!query` in `findBookByName` also rejects `null` and `undefined`; the model's query is always a string, as the input field's value is.
- Each render re-registers chapter listeners on fresh elements. Listener registration is not modelled; a toggle or key press is an operation on chapter i of the current render.
