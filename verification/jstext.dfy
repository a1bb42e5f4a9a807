/** The pieces of JavaScript string semantics the pages rely on: the
    line-terminator and white-space classes of regular expressions (`\s`, `.`,
    `^` and `$` in multiline mode), `String.prototype.trim` and
    `String.prototype.includes`. A string is a sequence of Dafny `char`s,
    one per Unicode scalar value. JavaScript counts UTF-16 code units instead,
    which differs only for characters above U+FFFF; none of the classes here
    contains one, and `atob` yields characters up to U+00FF. */
module JsText {

  /** LineTerminator: LF, CR, LINE SEPARATOR, PARAGRAPH SEPARATOR. */
  predicate IsLineTerminator(c: char) {
    c == '\n' || c == '\r' || c == '\U{2028}' || c == '\U{2029}'
  }

  /** The class matched by `\s` and stripped by `trim`: WhiteSpace (TAB, VT, FF,
      ZWNBSP and every space separator) together with LineTerminator. */
  predicate IsWhiteSpace(c: char) {
    || IsLineTerminator(c)
    || c == '\t' || c == '\U{000B}' || c == '\U{000C}' || c == '\U{FEFF}'
    || c == ' ' || c == '\U{00A0}' || c == '\U{1680}'
    || ('\U{2000}' <= c <= '\U{200A}')
    || c == '\U{202F}' || c == '\U{205F}' || c == '\U{3000}'
  }

  /** Every character of `s[lo..hi]` is white space. */
  predicate WhiteSpaceBetween(s: string, lo: int, hi: int)
    requires 0 <= lo && hi <= |s|
  {
    forall k | lo <= k < hi :: IsWhiteSpace(s[k])
  }

  predicate HasNoLineTerminator(s: string) {
    forall k | 0 <= k < |s| :: !IsLineTerminator(s[k])
  }

  /** Neither end of `s` is white space. */
  predicate IsTrimmed(s: string) {
    s == [] || (!IsWhiteSpace(s[0]) && !IsWhiteSpace(s[|s| - 1]))
  }

  /** `r` is what is left of `s` after removing a white-space prefix and a
      white-space suffix. */
  ghost predicate IsInnerPart(s: string, r: string) {
    exists i | 0 <= i <= |s| - |r| ::
      && s[i..i + |r|] == r
      && WhiteSpaceBetween(s, 0, i)
      && WhiteSpaceBetween(s, i + |r|, |s|)
  }

  /** Index of the first non-white-space character at or after `i`, or `|s|`. */
  function LeadingSpaceEnd(s: string, i: nat): (j: nat)
    requires i <= |s|
    ensures i <= j <= |s|
    ensures WhiteSpaceBetween(s, i, j)
    ensures j == |s| || !IsWhiteSpace(s[j])
    decreases |s| - i
  {
    if i < |s| && IsWhiteSpace(s[i]) then LeadingSpaceEnd(s, i + 1) else i
  }

  /** Index just past the last non-white-space character of `s[lo..j]`, or `lo`. */
  function TrailingSpaceStart(s: string, lo: nat, j: nat): (r: nat)
    requires lo <= j <= |s|
    ensures lo <= r <= j
    ensures WhiteSpaceBetween(s, r, j)
    ensures r == lo || !IsWhiteSpace(s[r - 1])
    decreases j
  {
    if lo < j && IsWhiteSpace(s[j - 1]) then TrailingSpaceStart(s, lo, j - 1) else j
  }

  /** `String.prototype.trim`. */
  function Trim(s: string): (r: string)
    ensures IsTrimmed(r)
    ensures IsInnerPart(s, r)
  {
    var i := LeadingSpaceEnd(s, 0);
    var j := TrailingSpaceStart(s, i, |s|);
    assert s[i..j] == s[i..i + |s[i..j]|];
    s[i..j]
  }

  /** Trimming is determined by the two properties above: a trimmed inner part
      of `s` is `Trim(s)`. In particular trimming twice changes nothing. */
  lemma TrimUnique(s: string, r: string)
    requires IsTrimmed(r) && IsInnerPart(s, r)
    ensures Trim(s) == r
  {
    var i :| 0 <= i <= |s| - |r| && s[i..i + |r|] == r && WhiteSpaceBetween(s, 0, i) && WhiteSpaceBetween(s, i + |r|, |s|);
    var lead := LeadingSpaceEnd(s, 0);
    var trail := TrailingSpaceStart(s, lead, |s|);
    if r == [] {
      assert WhiteSpaceBetween(s, 0, |s|);
      assert lead == |s|;
    } else {
      assert s[i] == r[0] && s[i + |r| - 1] == r[|r| - 1];
      assert lead == i;
      assert trail == i + |r|;
    }
  }

  lemma TrimIdempotent(s: string)
    ensures Trim(Trim(s)) == Trim(s)
  {
    var t := Trim(s);
    assert t[0..0 + |t|] == t;
    assert WhiteSpaceBetween(t, 0, 0) && WhiteSpaceBetween(t, 0 + |t|, |t|);
    assert IsInnerPart(t, t);
    TrimUnique(t, t);
  }

  /** Trimming never introduces a line break. */
  lemma TrimKeepsSingleLine(s: string)
    requires HasNoLineTerminator(s)
    ensures HasNoLineTerminator(Trim(s))
  {
    var r := Trim(s);
    var i :| 0 <= i <= |s| - |r| && s[i..i + |r|] == r && WhiteSpaceBetween(s, 0, i) && WhiteSpaceBetween(s, i + |r|, |s|);
    forall k | 0 <= k < |r| ensures !IsLineTerminator(r[k]) {
      assert r[k] == s[i + k];
    }
  }

  /** `hay.includes(needle)` as a declarative fact. */
  ghost predicate OccursAt(hay: string, needle: string, i: int) {
    0 <= i <= |hay| - |needle| && hay[i..i + |needle|] == needle
  }

  /** `String.prototype.includes`: a left-to-right search for `needle`. */
  function Includes(hay: string, needle: string): (b: bool)
    ensures b <==> exists i :: OccursAt(hay, needle, i)
  {
    IncludesFrom(hay, needle, 0)
  }

  function IncludesFrom(hay: string, needle: string, from: nat): (b: bool)
    ensures b <==> exists i :: from <= i && OccursAt(hay, needle, i)
    decreases |hay| - from
  {
    if from + |needle| > |hay| then false
    else if hay[from..from + |needle|] == needle then
      assert OccursAt(hay, needle, from);
      true
    else
      var rest := IncludesFrom(hay, needle, from + 1);
      assert rest <==> exists i :: from < i && OccursAt(hay, needle, i);
      rest
  }
}
