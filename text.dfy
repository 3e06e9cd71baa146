/** The string primitives the search relies on: String.prototype.trim,
    toLowerCase and includes, over strings of characters. */
module Text {

  /** The characters String.prototype.trim removes: the ECMAScript WhiteSpace
      characters (tab, vertical tab, form feed, space, no-break space, the byte
      order mark and the other space separators of category Zs) and the four
      LineTerminator characters. */
  predicate IsWhite(c: char) {
    || '\t' <= c <= '\r'  // tab, line feed, vertical tab, form feed, carriage return
    || c == ' ' || c == '\U{00A0}' || c == '\U{1680}'
    || '\U{2000}' <= c <= '\U{200A}'
    || c == '\U{2028}' || c == '\U{2029}'  // line and paragraph separators
    || c == '\U{202F}' || c == '\U{205F}' || c == '\U{3000}' || c == '\U{FEFF}'
  }

  /** The first position at or after i that does not hold white space (or
      the end of s). */
  function SkipLeading(s: string, i: nat): (r: nat)
    requires i <= |s|
    ensures i <= r <= |s|
    ensures r < |s| ==> !IsWhite(s[r])
    ensures forall k :: i <= k < r ==> IsWhite(s[k])
    decreases |s| - i
  {
    if i < |s| && IsWhite(s[i]) then SkipLeading(s, i + 1) else i
  }

  /** The end of the text in s[lo..j] once trailing white space is dropped:
      the smallest r at or after lo such that s[r..j] is all white space. */
  function SkipTrailing(s: string, lo: nat, j: nat): (r: nat)
    requires lo <= j <= |s|
    ensures lo <= r <= j
    ensures r > lo ==> !IsWhite(s[r - 1])
    ensures forall k :: r <= k < j ==> IsWhite(s[k])
    decreases j
  {
    if j > lo && IsWhite(s[j - 1]) then SkipTrailing(s, lo, j - 1) else j
  }

  /** String.prototype.trim: the text between the leading and the trailing
      white space. */
  function Trim(s: string): (r: string)
    ensures |r| <= |s|
    ensures r != [] ==> !IsWhite(r[0]) && !IsWhite(r[|r| - 1])
    ensures r == [] <==> forall i :: 0 <= i < |s| ==> IsWhite(s[i])
  {
    var lo := SkipLeading(s, 0);
    s[lo..SkipTrailing(s, lo, |s|)]
  }

  /** A string trims to nothing exactly when every character of it is white
      space; in particular "" trims to "". */
  lemma TrimEmptyIff(s: string)
    ensures Trim(s) == [] <==> forall i :: 0 <= i < |s| ==> IsWhite(s[i])
  {
  }

  /** Trimming twice is trimming once. */
  lemma TrimIdempotent(s: string)
    ensures Trim(Trim(s)) == Trim(s)
  {
    var t := Trim(s);
    var lo := SkipLeading(s, 0);
    if t != [] {
      assert t[0] == s[lo];
      assert SkipLeading(t, 0) == 0;
      assert t[|t| - 1] == s[SkipTrailing(s, lo, |s|) - 1];
      assert SkipTrailing(t, 0, |t|) == |t|;
    }
  }

  /** Trimming removes exactly the white space padding around a text that
      neither starts nor ends with white space. */
  lemma TrimPadded(pre: string, mid: string, post: string)
    requires forall i :: 0 <= i < |pre| ==> IsWhite(pre[i])
    requires forall i :: 0 <= i < |post| ==> IsWhite(post[i])
    requires mid != [] && !IsWhite(mid[0]) && !IsWhite(mid[|mid| - 1])
    ensures Trim(pre + mid + post) == mid
  {
    var s := pre + mid + post;
    var lo := SkipLeading(s, 0);
    assert s[|pre|] == mid[0];
    assert forall i :: 0 <= i < |pre| ==> s[i] == pre[i];
    assert lo == |pre|;
    var hi := SkipTrailing(s, lo, |s|);
    var end := |pre| + |mid|;
    assert s[end - 1] == mid[|mid| - 1];
    assert forall i :: end <= i < |s| ==> s[i] == post[i - end];
    assert hi == end;
    assert s[lo..hi] == mid;
  }

  /** ASCII case folding of one character: A-Z become a-z. */
  function LowerChar(c: char): char {
    if 'A' <= c <= 'Z' then (c as int + 32) as char else c
  }

  /** String.prototype.toLowerCase, restricted to ASCII letters. */
  function Lower(s: string): (r: string)
    ensures |r| == |s|
    ensures forall i :: 0 <= i < |s| ==> !('A' <= r[i] <= 'Z')
    ensures forall i :: 0 <= i < |s| && !('A' <= s[i] <= 'Z') ==> r[i] == s[i]
    ensures forall i :: 0 <= i < |s| && 'A' <= s[i] <= 'Z' ==> r[i] as int == s[i] as int + 32
  {
    seq(|s|, i requires 0 <= i < |s| => LowerChar(s[i]))
  }

  /** Lower-casing leaves no upper-case ASCII letter behind, and doing it again
      changes nothing. */
  lemma LowerIdempotent(s: string)
    ensures forall i :: 0 <= i < |Lower(s)| ==> !('A' <= Lower(s)[i] <= 'Z')
    ensures Lower(Lower(s)) == Lower(s)
  {
  }

  /** Lower-casing leaves text without upper-case ASCII letters unchanged. */
  lemma LowerIdentity(s: string)
    requires forall i :: 0 <= i < |s| ==> !('A' <= s[i] <= 'Z')
    ensures Lower(s) == s
  {
  }

  /** t occurs in s starting at position i. */
  predicate OccursAt(s: string, t: string, i: int) {
    0 <= i && i + |t| <= |s| && s[i..i + |t|] == t
  }

  /** String.prototype.includes: is t a prefix of s or of one of its suffixes? */
  function Includes(s: string, t: string): (r: bool)
    ensures t == [] ==> r
    ensures r ==> |t| <= |s|
    decreases |s|
  {
    if t <= s then true
    else if s == [] then false
    else Includes(s[1..], t)
  }

  /** Includes is exactly "t occurs somewhere in s". */
  lemma {:induction false} IncludesIff(s: string, t: string)
    ensures Includes(s, t) <==> exists i :: OccursAt(s, t, i)
    decreases |s|
  {
    if t <= s {
      assert OccursAt(s, t, 0);
    } else if s == [] {
      assert forall i :: !OccursAt(s, t, i);
    } else {
      IncludesIff(s[1..], t);
      assert OccursAt(s, t, 0) ==> t <= s;
      forall i | 0 < i ensures OccursAt(s, t, i) <==> OccursAt(s[1..], t, i - 1) {
        if i + |t| <= |s| {
          assert s[1..][i - 1..i - 1 + |t|] == s[i..i + |t|];
        }
      }
      if Includes(s[1..], t) {
        var j :| OccursAt(s[1..], t, j);
        assert OccursAt(s[1..], t, (j + 1) - 1);
        assert OccursAt(s, t, j + 1);
      }
    }
  }

  /** A string without the first character of t does not include t. */
  lemma IncludesNeedsFirstChar(s: string, t: string)
    requires t != [] && t[0] !in s
    ensures !Includes(s, t)
  {
    IncludesIff(s, t);
  }

  /** Every string includes the empty string. */
  lemma IncludesEmpty(s: string)
    ensures Includes(s, [])
  {
  }
}
