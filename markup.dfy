/** The text pieces renderBook and renderNotFound build: the chapter body
    (escaped content with every line break turned into `<br>`) and the
    not-found message that echoes the escaped query. */
module Markup {
  import opened Escape

  /** The `.replace(/\n/g, '<br>')` step: every line feed becomes `<br>`. */
  function NewlinesToBreaks(s: string): (r: string)
    ensures |r| >= |s|
  {
    if s == [] then []
    else (if s[0] == '\n' then "<br>" else [s[0]]) + NewlinesToBreaks(s[1..])
  }

  /** The partner of NewlinesToBreaks: every `<br>` read back as a line feed. */
  function BreaksToNewlines(s: string): (r: string)
    ensures |r| <= |s|
    decreases |s|
  {
    if s == [] then []
    else if "<br>" <= s then ['\n'] + BreaksToNewlines(s[4..])
    else [s[0]] + BreaksToNewlines(s[1..])
  }

  /** Body markup: no line feed and no quote of either kind; every `<` opens
      a `<br>` and every `>` closes one. */
  predicate BreaksOnly(r: string) {
    forall i :: 0 <= i < |r| ==>
      && r[i] != '\n' && r[i] != '"' && r[i] != '\''
      && (r[i] == '<' ==> "<br>" <= r[i..])
      && (r[i] == '>' ==> 3 <= i && r[i - 3..i + 1] == "<br>")
  }

  /** Joining two pieces of body markup gives body markup. */
  lemma BreaksOnlyConcat(a: string, b: string)
    requires BreaksOnly(a) && BreaksOnly(b)
    ensures BreaksOnly(a + b)
  {
    var r := a + b;
    forall i | 0 <= i < |r| && r[i] == '<' ensures "<br>" <= r[i..] {
      if i < |a| {
        assert r[i..] == a[i..] + b;
        assert "<br>" <= a[i..];
      } else {
        assert r[i..] == b[i - |a|..];
        assert r[i] == b[i - |a|];
      }
    }
    forall i | 0 <= i < |r| && r[i] == '>' ensures 3 <= i && r[i - 3..i + 1] == "<br>" {
      if i < |a| {
        assert r[i - 3..i + 1] == a[i - 3..i + 1];
      } else {
        assert r[i] == b[i - |a|];
        assert r[i - 3..i + 1] == b[i - |a| - 3..i - |a| + 1];
      }
    }
  }

  /** Converting the line breaks of text that holds none of `<`, `>`, `"` and
      `'` gives body markup. */
  lemma {:induction false} NewlinesToBreaksShape(s: string)
    requires forall i :: 0 <= i < |s| ==> s[i] != '<' && s[i] != '>' && s[i] != '"' && s[i] != '\''
    ensures BreaksOnly(NewlinesToBreaks(s))
  {
    if s != [] {
      NewlinesToBreaksShape(s[1..]);
      var head := if s[0] == '\n' then "<br>" else [s[0]];
      assert BreaksOnly(head) by {
        if s[0] == '\n' {
          assert head[0..] == head && head[0..4] == head;
        }
      }
      BreaksOnlyConcat(head, NewlinesToBreaks(s[1..]));
    }
  }

  /** On text without `<`, reading the breaks back recovers the text. */
  lemma {:induction false} BreaksRoundTrip(s: string)
    requires forall i :: 0 <= i < |s| ==> s[i] != '<'
    ensures BreaksToNewlines(NewlinesToBreaks(s)) == s
  {
    if s != [] {
      BreaksRoundTrip(s[1..]);
      var t := NewlinesToBreaks(s[1..]);
      var r := NewlinesToBreaks(s);
      if s[0] == '\n' {
        assert r[..4] == "<br>" && r[4..] == t;
      } else {
        assert r[0] == s[0] && r[1..] == t;
      }
      assert s == [s[0]] + s[1..];
    }
  }

  /** The body of one chapter: its escaped content with line breaks. It is
      body markup, and reading its breaks and entities back gives the
      content. */
  function ChapterBodyHtml(content: string): (r: string)
    ensures BreaksOnly(r)
    ensures Unescape(BreaksToNewlines(r)) == content
  {
    var e := EscapeHtml(content);
    EscapeIsSafe(content);
    NewlinesToBreaksShape(e);
    BreaksRoundTrip(e);
    UnescapeEscape(content);
    NewlinesToBreaks(e)
  }

  /** The fixed text around the echoed query in renderNotFound. */
  const NotFoundPrefix: string := "<p class=\"hint\">No book found for \"<strong>"
  const NotFoundSuffix: string := "</strong>\". Try \"Jungle Book\".</p>"

  /** renderNotFound: the message echoing the escaped query. The query sits
      whole between the fixed prefix and suffix; that part is safe text and
      decodes to the query. */
  function NotFoundHtml(q: string): (m: string)
    ensures |m| == |NotFoundPrefix| + |EscapeHtml(q)| + |NotFoundSuffix|
    ensures m[..|NotFoundPrefix|] == NotFoundPrefix && m[|m| - |NotFoundSuffix|..] == NotFoundSuffix
    ensures SafeText(m[|NotFoundPrefix|..|m| - |NotFoundSuffix|])
    ensures Unescape(m[|NotFoundPrefix|..|m| - |NotFoundSuffix|]) == q
  {
    var e := EscapeHtml(q);
    var m := NotFoundPrefix + e + NotFoundSuffix;
    assert m[|NotFoundPrefix|..|m| - |NotFoundSuffix|] == e;
    EscapeIsSafe(q);
    UnescapeEscape(q);
    m
  }

  /** renderHint: the fixed hint shown before any search and for a blank one. */
  const HintHtml: string := "<p class=\"hint\">Search for a book to see its details and chapters here.</p>"
}
