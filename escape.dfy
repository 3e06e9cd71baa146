/** escapeHtml: the five markup-significant characters become character
    references, every other character is kept. The module also gives the
    decoder that reads the five references back, as the partner of the
    encoder. */
module Escape {

  /** The characters escapeHtml rewrites. */
  predicate IsSpecial(c: char) {
    c == '&' || c == '<' || c == '>' || c == '"' || c == '\''
  }

  /** The replacement of one character: its entity, or the character itself. */
  function EntityOf(c: char): (r: string)
    ensures |r| >= 1
    ensures !IsSpecial(c) <==> r == [c]
    ensures IsSpecial(c) ==> |r| > 1 && r[0] == '&' && r[|r| - 1] == ';'
  {
    match c
    case '&' => "&amp;"
    case '<' => "&lt;"
    case '>' => "&gt;"
    case '"' => "&quot;"
    case '\'' => "&#39;"
    case _ => [c]
  }

  /** escapeHtml: every character replaced by EntityOf, in a single pass. */
  function EscapeHtml(s: string): (r: string)
    ensures |r| >= |s|
    ensures s == [] <==> r == []
  {
    if s == [] then [] else EntityOf(s[0]) + EscapeHtml(s[1..])
  }

  /** t starts with one of the five entities escapeHtml produces. */
  predicate StartsEntity(t: string) {
    "&amp;" <= t || "&lt;" <= t || "&gt;" <= t || "&quot;" <= t || "&#39;" <= t
  }

  /** Markup that can be embedded as text: no `<`, `>`, `"` or `'`, and every
      `&` begins one of the five entities. */
  predicate SafeText(r: string) {
    forall i :: 0 <= i < |r| ==>
      && r[i] != '<' && r[i] != '>' && r[i] != '"' && r[i] != '\''
      && (r[i] == '&' ==> StartsEntity(r[i..]))
  }

  /** The decoder: reads each of the five entities back as its character and
      keeps every other character. */
  function Unescape(s: string): (r: string)
    ensures |r| <= |s|
    decreases |s|
  {
    if s == [] then []
    else if "&amp;" <= s then ['&'] + Unescape(s[5..])
    else if "&lt;" <= s then ['<'] + Unescape(s[4..])
    else if "&gt;" <= s then ['>'] + Unescape(s[4..])
    else if "&quot;" <= s then ['"'] + Unescape(s[6..])
    else if "&#39;" <= s then ['\''] + Unescape(s[5..])
    else [s[0]] + Unescape(s[1..])
  }

  /** On a string with none of the five characters, escaping changes nothing. */
  lemma {:induction false} EscapeIdentityOnSafe(s: string)
    requires forall i :: 0 <= i < |s| ==> !IsSpecial(s[i])
    ensures EscapeHtml(s) == s
  {
    if s != [] {
      EscapeIdentityOnSafe(s[1..]);
      assert s == [s[0]] + s[1..];
    }
  }

  /** Conversely, escaping a string that holds one of the five characters
      changes it. */
  lemma {:induction false} EscapeChangesUnsafe(s: string, k: nat)
    requires k < |s| && IsSpecial(s[k])
    ensures EscapeHtml(s) != s
  {
    EscapeLength(s);
  }

  /** Escaping keeps the length exactly when the input holds none of the five
      characters, and lengthens it otherwise. */
  lemma {:induction false} EscapeLength(s: string)
    ensures |EscapeHtml(s)| == |s| <==> forall i :: 0 <= i < |s| ==> !IsSpecial(s[i])
  {
    if s != [] {
      EscapeLength(s[1..]);
      assert forall i :: 1 <= i < |s| ==> s[i] == s[1..][i - 1];
      if forall i :: 0 <= i < |s[1..]| ==> !IsSpecial(s[1..][i]) {
        assert forall i :: 1 <= i < |s| ==> !IsSpecial(s[i]);
      }
    }
  }

  /** Joining two safe pieces gives a safe piece: an entity that starts in the
      first piece lies wholly inside it. */
  lemma SafeTextConcat(a: string, b: string)
    requires SafeText(a) && SafeText(b)
    ensures SafeText(a + b)
  {
    var r := a + b;
    forall i | 0 <= i < |r| && r[i] == '&' ensures StartsEntity(r[i..]) {
      if i < |a| {
        assert r[i..] == a[i..] + b;
        assert StartsEntity(a[i..]);
      } else {
        assert r[i..] == b[i - |a|..];
        assert r[i] == b[i - |a|];
      }
    }
  }

  /** The output of escapeHtml is safe text. */
  lemma {:induction false} EscapeIsSafe(s: string)
    ensures SafeText(EscapeHtml(s))
  {
    if s != [] {
      EscapeIsSafe(s[1..]);
      var e := EntityOf(s[0]);
      assert SafeText(e) by {
        if IsSpecial(s[0]) {
          assert e[0] == '&' && e[0..] == e;
          assert forall i :: 1 <= i < |e| ==> e[i] != '&';
        }
      }
      SafeTextConcat(e, EscapeHtml(s[1..]));
    }
  }

  /** Decoding undoes the escape of one character in front of any text. */
  lemma UnescapeEntity(c: char, t: string)
    ensures Unescape(EntityOf(c) + t) == [c] + Unescape(t)
  {
    var e := EntityOf(c);
    var s := e + t;
    assert s[..|e|] == e;
    assert s[|e|..] == t;
    if IsSpecial(c) {
      assert s[0] == '&' && s[1] == e[1];
    } else {
      assert s[0] == c && s[1..] == t;
    }
  }

  /** Decoding inverts escaping: the round trip returns the original text. */
  lemma {:induction false} UnescapeEscape(s: string)
    ensures Unescape(EscapeHtml(s)) == s
  {
    if s != [] {
      UnescapeEscape(s[1..]);
      UnescapeEntity(s[0], EscapeHtml(s[1..]));
      assert s == [s[0]] + s[1..];
    }
  }

  /** Hence escaping is injective: different texts escape differently. */
  lemma EscapeInjective(s: string, t: string)
    requires EscapeHtml(s) == EscapeHtml(t)
    ensures s == t
  {
    UnescapeEscape(s);
    UnescapeEscape(t);
  }
}
