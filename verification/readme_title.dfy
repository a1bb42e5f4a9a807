/** Title extraction from the decoded text of a repository README
    (`extractTitleFromReadme` in portfolio/app/page.tsx).

    The source tries four JavaScript regular expressions in multiline mode:
      /^#\s+(.+)$/m      ATX level-1 heading
      /^(.+)\n={3,}$/m   setext level-1 heading
      /^##\s+(.+)$/m     ATX level-2 heading
      /^(.+)\n-{3,}$/m   setext level-2 heading
    and returns the trimmed capture group of the first expression that matches
    anywhere in the text. The regular-expression engine is not modelled in
    general. Instead each expression is described twice: declaratively, as the
    ways the expression can match (`Split`) together with the choice the
    backtracking engine makes among them (`GreedyCapture`, `RegexMatch`), and
    operationally, as a hand-written scanner (`MatchAt`, `Find`) proved to make
    exactly that choice. */
module ReadmeTitle {
  import opened Wrappers
  import opened JsText

  /** The four heading expressions, in the order the source tries them. */
  datatype Pattern = AtxH1 | SetextH1 | AtxH2 | SetextH2 {

    predicate IsAtx() { AtxH1? || AtxH2? }

    /** The literal `#` run an ATX expression starts with. */
    function Marker(): string
      requires IsAtx()
    {
      if AtxH1? then "#" else "##"
    }

    /** The character a setext expression's underline repeats. */
    function Underline(): char
      requires !IsAtx()
    {
      if SetextH1? then '=' else '-'
    }
  }

  /** The capture group `(.+)` of a match: the characters `s[start..end]`. */
  datatype Span = Span(start: nat, end: nat)

  /** A successful `String.prototype.match`: where the match begins and what it captured. */
  datatype Hit = Hit(pos: nat, cap: Span)

  // ----- Anchors and character runs -----

  /** `^` in multiline mode: the start of the input or just after a line terminator. */
  predicate AtLineStart(s: string, p: int) {
    0 <= p <= |s| && (p == 0 || IsLineTerminator(s[p - 1]))
  }

  /** `$` in multiline mode: the end of the input or just before a line terminator. */
  predicate AtLineEnd(s: string, e: int) {
    0 <= e <= |s| && (e == |s| || IsLineTerminator(s[e]))
  }

  /** Every character of `s[lo..hi]` is matched by `.`. */
  predicate NoBreakBetween(s: string, lo: int, hi: int)
    requires 0 <= lo && hi <= |s|
  {
    forall k | lo <= k < hi :: !IsLineTerminator(s[k])
  }

  /** Every character of `s[lo..hi]` is `u`. */
  predicate RunOf(s: string, u: char, lo: int, hi: int)
    requires 0 <= lo && hi <= |s|
  {
    forall k | lo <= k < hi :: s[k] == u
  }

  // ----- Declarative semantics of the four expressions -----

  /** `^m\s+(.+)$` matches from `p` with the `\s+` run `s[p+|m|..q]` and the
      capture `s[q..e]`. */
  ghost predicate AtxSplit(s: string, m: string, p: int, q: int, e: int) {
    && AtLineStart(s, p)
    && p + |m| < q < e <= |s|
    && s[p..p + |m|] == m
    && WhiteSpaceBetween(s, p + |m|, q)
    && NoBreakBetween(s, q, e)
    && AtLineEnd(s, e)
  }

  /** `^(.+)\n u{3,}$` matches from `p` with the capture `s[p..e]` and the
      underline `s[e+1..f]`. */
  ghost predicate SetextSplit(s: string, u: char, p: int, e: int, f: int) {
    && AtLineStart(s, p)
    && p < e && e + 4 <= f <= |s|
    && NoBreakBetween(s, p, e)
    && s[e] == '\n'
    && RunOf(s, u, e + 1, f)
    && AtLineEnd(s, f)
  }

  /** `pat` can match starting at `p` with capture group `c`. */
  ghost predicate Split(s: string, pat: Pattern, p: int, c: Span) {
    if pat.IsAtx() then AtxSplit(s, pat.Marker(), p, c.start, c.end)
    else c.start == p && exists f :: SetextSplit(s, pat.Underline(), p, c.end, f)
  }

  ghost predicate MatchesAt(s: string, pat: Pattern, p: int) {
    exists c :: Split(s, pat, p, c)
  }

  /** Among the ways `pat` can match at `p`, the backtracking engine takes the
      first in the order its greedy quantifiers try them: the longest `\s+`
      run (latest capture start), then the longest `(.+)` (latest capture end). */
  ghost predicate GreedyCapture(s: string, pat: Pattern, p: int, c: Span) {
    && Split(s, pat, p, c)
    && forall c' :: Split(s, pat, p, c') ==> c'.start < c.start || (c'.start == c.start && c'.end <= c.end)
  }

  /** The result of `s.match(pat)`: the leftmost start position where `pat`
      matches, with the capture the engine chooses there. */
  ghost predicate RegexMatch(s: string, pat: Pattern, h: Hit) {
    && GreedyCapture(s, pat, h.pos, h.cap)
    && forall p | 0 <= p < h.pos :: !MatchesAt(s, pat, p)
  }

  // ----- Scanners -----

  /** The end of the line containing position `i`. */
  function LineEndFrom(s: string, i: nat): (e: nat)
    requires i <= |s|
    ensures i <= e && AtLineEnd(s, e) && NoBreakBetween(s, i, e)
    decreases |s| - i
  {
    if i < |s| && !IsLineTerminator(s[i]) then LineEndFrom(s, i + 1) else i
  }

  /** The end of the white-space run starting at `i`. */
  function SpaceRunEnd(s: string, i: nat): (j: nat)
    requires i <= |s|
    ensures i <= j <= |s| && WhiteSpaceBetween(s, i, j)
    ensures j == |s| || !IsWhiteSpace(s[j])
    decreases |s| - i
  {
    if i < |s| && IsWhiteSpace(s[i]) then SpaceRunEnd(s, i + 1) else i
  }

  /** The end of the run of `u` starting at `i`. */
  function CharRunEnd(s: string, u: char, i: nat): (j: nat)
    requires i <= |s|
    ensures i <= j <= |s| && RunOf(s, u, i, j)
    ensures j == |s| || s[j] != u
    decreases |s| - i
  {
    if i < |s| && s[i] == u then CharRunEnd(s, u, i + 1) else i
  }

  /** The last position in `[lo, hi)` holding a character other than a line terminator. */
  function LastNonBreak(s: string, lo: nat, hi: nat): (r: Option<nat>)
    requires lo <= hi <= |s|
    ensures r.Some? ==> lo <= r.value < hi && !IsLineTerminator(s[r.value])
    ensures r.Some? ==> forall k | r.value < k < hi :: IsLineTerminator(s[k])
    ensures r.None? ==> forall k | lo <= k < hi :: IsLineTerminator(s[k])
    decreases hi
  {
    if lo == hi then None
    else if !IsLineTerminator(s[hi - 1]) then Some(hi - 1)
    else LastNonBreak(s, lo, hi - 1)
  }

  lemma LineEndCharacterized(s: string, i: nat, e: int)
    requires i <= |s|
    ensures (AtLineEnd(s, e) && i <= e && NoBreakBetween(s, i, e)) <==> e == LineEndFrom(s, i)
  {
    var e0 := LineEndFrom(s, i);
    if AtLineEnd(s, e) && i <= e && NoBreakBetween(s, i, e) {
      assert e == e0;
    }
  }

  lemma SpaceRunCharacterized(s: string, lo: nat, q: int)
    requires lo <= q <= |s|
    ensures WhiteSpaceBetween(s, lo, q) <==> q <= SpaceRunEnd(s, lo)
  {
    var w := SpaceRunEnd(s, lo);
  }

  lemma CharRunCharacterized(s: string, u: char, lo: nat, f: int)
    requires lo <= f <= |s|
    ensures RunOf(s, u, lo, f) <==> f <= CharRunEnd(s, u, lo)
  {
    var j := CharRunEnd(s, u, lo);
  }

  /** The ways an ATX expression can match at `p`, in terms of the scanners:
      the capture starts at a non-line-terminator inside the white-space run
      after the marker and ends at the end of its line. */
  lemma AtxSplitCharacterized(s: string, m: string, p: int, q: int, e: int)
    ensures AtxSplit(s, m, p, q, e) <==>
      && AtLineStart(s, p) && p + |m| <= |s| && s[p..p + |m|] == m
      && p + |m| < q < |s| && q <= SpaceRunEnd(s, p + |m|)
      && !IsLineTerminator(s[q]) && e == LineEndFrom(s, q)
  {
    if AtLineStart(s, p) && p + |m| < q <= |s| {
      SpaceRunCharacterized(s, p + |m|, q);
      LineEndCharacterized(s, q, e);
    }
  }

  /** The ways a setext expression can match at `p`: the capture is the whole
      line from `p`, a `\n` follows it, and the underline is the entire run of
      `u` after that `\n`, at least three long and ending the next line. */
  lemma SetextSplitCharacterized(s: string, u: char, p: int, e: int, f: int)
    requires !IsLineTerminator(u)
    ensures SetextSplit(s, u, p, e, f) <==>
      && AtLineStart(s, p) && e == LineEndFrom(s, p) && p < e < |s| && s[e] == '\n'
      && f == CharRunEnd(s, u, e + 1) && e + 4 <= f && AtLineEnd(s, f)
  {
    if AtLineStart(s, p) && p < e < |s| && e + 1 <= f <= |s| {
      LineEndCharacterized(s, p, e);
      CharRunCharacterized(s, u, e + 1, f);
      var j := CharRunEnd(s, u, e + 1);
      assert f < j ==> s[f] == u;
    }
  }

  /** The ATX scanner: after the marker, `\s+` first takes the whole
      white-space run and then gives characters back until `(.+)` can start,
      that is, until the next character is not a line terminator. */
  function AtxAt(s: string, m: string, p: nat): (r: Option<Span>)
    requires p <= |s|
    ensures r.Some? ==> AtxSplit(s, m, p, r.value.start, r.value.end)
    ensures r.Some? ==> forall q, e :: AtxSplit(s, m, p, q, e) ==> q < r.value.start || (q == r.value.start && e == r.value.end)
    ensures r.None? ==> forall q, e :: !AtxSplit(s, m, p, q, e)
  {
    AtxSplitAll(s, m, p);
    if !(AtLineStart(s, p) && p + |m| <= |s| && s[p..p + |m|] == m) then None
    else
      var lo := p + |m|;
      var w := SpaceRunEnd(s, lo);
      if w == lo then None
      else
        match LastNonBreak(s, lo + 1, if w < |s| then w + 1 else |s|)
        case None => None
        case Some(q) => Some(Span(q, LineEndFrom(s, q)))
  }

  lemma AtxSplitAll(s: string, m: string, p: int)
    ensures forall q, e :: AtxSplit(s, m, p, q, e) <==>
      && AtLineStart(s, p) && p + |m| <= |s| && s[p..p + |m|] == m
      && p + |m| < q < |s| && q <= SpaceRunEnd(s, p + |m|)
      && !IsLineTerminator(s[q]) && e == LineEndFrom(s, q)
  {
    forall q, e {
      AtxSplitCharacterized(s, m, p, q, e);
    }
  }

  lemma SetextSplitAll(s: string, u: char, p: int)
    requires !IsLineTerminator(u)
    ensures forall e, f :: SetextSplit(s, u, p, e, f) <==>
      && AtLineStart(s, p) && e == LineEndFrom(s, p) && p < e < |s| && s[e] == '\n'
      && f == CharRunEnd(s, u, e + 1) && e + 4 <= f && AtLineEnd(s, f)
  {
    forall e, f {
      SetextSplitCharacterized(s, u, p, e, f);
    }
  }

  /** The setext scanner: `(.+)` takes the whole line, `\n` must follow, and
      `u{3,}` takes the whole run of `u`, which must be at least three long
      and be followed by a line end. */
  function SetextAt(s: string, u: char, p: nat): (r: Option<Span>)
    requires p <= |s| && !IsLineTerminator(u)
    ensures r.Some? ==> r.value.start == p && r.value.end < |s| && exists f :: SetextSplit(s, u, p, r.value.end, f)
    ensures r.Some? ==> forall e, f :: SetextSplit(s, u, p, e, f) ==> e == r.value.end
    ensures r.None? ==> forall e, f :: !SetextSplit(s, u, p, e, f)
  {
    SetextSplitAll(s, u, p);
    if !AtLineStart(s, p) then None
    else
      var e := LineEndFrom(s, p);
      if e == p || e == |s| || s[e] != '\n' then None
      else
        var f := CharRunEnd(s, u, e + 1);
        if e + 4 <= f && AtLineEnd(s, f) then
          assert SetextSplit(s, u, p, e, f);
          Some(Span(p, e))
        else None
  }

  /** Whether, and with which capture, `pat` matches at `p`. */
  function MatchAt(s: string, pat: Pattern, p: nat): (r: Option<Span>)
    requires p <= |s|
    ensures r.Some? ==> GreedyCapture(s, pat, p, r.value)
    ensures r.None? ==> !MatchesAt(s, pat, p)
  {
    if pat.IsAtx() then AtxAt(s, pat.Marker(), p) else SetextAt(s, pat.Underline(), p)
  }

  /** `s.match(pat)` restricted to start positions from `from` on. */
  function FindFrom(s: string, pat: Pattern, from: nat): (r: Option<Hit>)
    ensures r.Some? ==> from <= r.value.pos <= |s| && GreedyCapture(s, pat, r.value.pos, r.value.cap)
    ensures r.Some? ==> forall p | from <= p < r.value.pos :: !MatchesAt(s, pat, p)
    ensures r.None? ==> forall p | from <= p :: !MatchesAt(s, pat, p)
    decreases |s| + 1 - from
  {
    if from > |s| then None
    else
      match MatchAt(s, pat, from)
      case Some(c) => Some(Hit(from, c))
      case None => FindFrom(s, pat, from + 1)
  }

  /** `s.match(pat)`: `None` is the source's `null`. */
  function Find(s: string, pat: Pattern): (r: Option<Hit>)
    ensures r.Some? ==> RegexMatch(s, pat, r.value)
    ensures r.Some? ==> r.value.cap.start <= r.value.cap.end <= |s|
    ensures r.None? ==> forall p :: !MatchesAt(s, pat, p)
  {
    FindFrom(s, pat, 0)
  }

  /** The text of a capture group. */
  function Captured(s: string, c: Span): string
    requires c.start <= c.end <= |s|
  {
    s[c.start..c.end]
  }

  /** `extractTitleFromReadme` after decoding: the two level-1 expressions are
      combined with `||`, then the two level-2 ones, and the first non-null
      match's capture is trimmed. The result is null exactly when none of
      the four expressions matches anywhere; a title has no white space at
      either end and lies within one line. */
  function Extract(s: string): (r: Option<string>)
    ensures r.None? <==> forall pat, p :: !MatchesAt(s, pat, p)
    ensures r.Some? ==> IsTrimmed(r.value) && HasNoLineTerminator(r.value)
  {
    FoundMatches(s, AtxH1);
    FoundMatches(s, SetextH1);
    FoundMatches(s, AtxH2);
    FoundMatches(s, SetextH2);
    NoneFound(s);
    CaptureIsSingleLine(s, AtxH1);
    CaptureIsSingleLine(s, SetextH1);
    CaptureIsSingleLine(s, AtxH2);
    CaptureIsSingleLine(s, SetextH2);
    match Find(s, AtxH1).OrElse(Find(s, SetextH1))
    case Some(h) => TrimmedCapture(s, h.cap)
    case None =>
      match Find(s, AtxH2).OrElse(Find(s, SetextH2))
      case Some(h) => TrimmedCapture(s, h.cap)
      case None => None
  }

  /** The trimmed text of a capture group; it stays within one line when the
      capture does. */
  function TrimmedCapture(s: string, c: Span): (r: Option<string>)
    requires c.start <= c.end <= |s|
    ensures r.Some? && IsTrimmed(r.value)
    ensures HasNoLineTerminator(Captured(s, c)) ==> HasNoLineTerminator(r.value)
  {
    var t := Captured(s, c);
    if HasNoLineTerminator(t) then TrimKeepsSingleLine(t); Some(Trim(t)) else Some(Trim(t))
  }

  /** When all four searches come back null, no expression matches anywhere. */
  lemma NoneFound(s: string)
    ensures Find(s, AtxH1).None? && Find(s, SetextH1).None? && Find(s, AtxH2).None? && Find(s, SetextH2).None? ==>
      forall pat, p :: !MatchesAt(s, pat, p)
  {
  }

  // ----- Properties -----

  /** There is at most one result of `s.match(pat)`. */
  lemma RegexMatchUnique(s: string, pat: Pattern, h1: Hit, h2: Hit)
    requires RegexMatch(s, pat, h1) && RegexMatch(s, pat, h2)
    ensures h1 == h2
  {
    assert MatchesAt(s, pat, h1.pos) && MatchesAt(s, pat, h2.pos);
    assert h1.pos == h2.pos;
  }

  /** `Find` is the regular-expression match. */
  lemma FindIsRegexMatch(s: string, pat: Pattern, h: Hit)
    requires RegexMatch(s, pat, h)
    ensures Find(s, pat) == Some(h)
  {
    var r := Find(s, pat);
    assert MatchesAt(s, pat, h.pos);
    RegexMatchUnique(s, pat, r.value, h);
  }

  /** An ATX level-1 heading anywhere wins, even below a setext heading or a
      level-2 heading: the result is the trimmed capture of the leftmost one. */
  lemma ExtractPrefersAtxH1(s: string, h: Hit)
    requires RegexMatch(s, AtxH1, h)
    ensures h.cap.start <= h.cap.end <= |s|
    ensures Extract(s) == Some(Trim(Captured(s, h.cap)))
  {
    FindIsRegexMatch(s, AtxH1, h);
  }

  /** With no ATX level-1 heading, a setext level-1 heading decides. */
  lemma ExtractSetextH1(s: string, h: Hit)
    requires forall p :: !MatchesAt(s, AtxH1, p)
    requires RegexMatch(s, SetextH1, h)
    ensures h.cap.start <= h.cap.end <= |s|
    ensures Extract(s) == Some(Trim(Captured(s, h.cap)))
  {
    FindIsRegexMatch(s, SetextH1, h);
    FoundMatches(s, AtxH1);
  }

  /** The level-2 expressions are consulted only when neither level-1 one
      matches, ATX before setext. */
  lemma ExtractAtxH2(s: string, h: Hit)
    requires forall p :: !MatchesAt(s, AtxH1, p) && !MatchesAt(s, SetextH1, p)
    requires RegexMatch(s, AtxH2, h)
    ensures h.cap.start <= h.cap.end <= |s|
    ensures Extract(s) == Some(Trim(Captured(s, h.cap)))
  {
    FindIsRegexMatch(s, AtxH2, h);
    NoLevel1(s);
  }

  lemma ExtractSetextH2(s: string, h: Hit)
    requires forall p :: !MatchesAt(s, AtxH1, p) && !MatchesAt(s, SetextH1, p) && !MatchesAt(s, AtxH2, p)
    requires RegexMatch(s, SetextH2, h)
    ensures h.cap.start <= h.cap.end <= |s|
    ensures Extract(s) == Some(Trim(Captured(s, h.cap)))
  {
    FindIsRegexMatch(s, SetextH2, h);
    NoLevel1(s);
    FoundMatches(s, AtxH2);
  }

  lemma NoLevel1(s: string)
    requires forall p :: !MatchesAt(s, AtxH1, p) && !MatchesAt(s, SetextH1, p)
    ensures Find(s, AtxH1).None? && Find(s, SetextH1).None?
  {
    FoundMatches(s, AtxH1);
    FoundMatches(s, SetextH1);
  }

  /** A found hit is a position where the expression matches. */
  lemma FoundMatches(s: string, pat: Pattern)
    ensures Find(s, pat).Some? ==> MatchesAt(s, pat, Find(s, pat).value.pos)
  {
    if Find(s, pat).Some? {
      var h := Find(s, pat).value;
      assert Split(s, pat, h.pos, h.cap);
    }
  }

  /** Trimming a title again changes nothing. */
  lemma ExtractIdempotentTrim(s: string)
    ensures Extract(s).Some? ==> Trim(Extract(s).value) == Extract(s).value
  {
    if Extract(s).Some? {
      TrimIdempotent(Extract(s).value);
    }
  }

  /** A capture group never contains a line terminator. */
  lemma CaptureIsSingleLine(s: string, pat: Pattern)
    ensures Find(s, pat).Some? ==> HasNoLineTerminator(Captured(s, Find(s, pat).value.cap))
  {
    if Find(s, pat).Some? {
      var h := Find(s, pat).value;
      var t := Captured(s, h.cap);
      assert Split(s, pat, h.pos, h.cap);
      assert NoBreakBetween(s, h.cap.start, h.cap.end) by {
        if !pat.IsAtx() {
          var f :| SetextSplit(s, pat.Underline(), h.pos, h.cap.end, f);
        }
      }
      forall k | 0 <= k < |t| ensures !IsLineTerminator(t[k]) {
        assert t[k] == s[h.cap.start + k];
      }
    }
  }

  /** `#Title` is not an ATX heading: the marker needs at least one white-space
      character after it, which may be a line break. */
  lemma AtxNeedsWhiteSpace(s: string, pat: Pattern, p: int)
    requires pat.IsAtx()
    ensures MatchesAt(s, pat, p) ==>
      p + |pat.Marker()| < |s| && s[p..p + |pat.Marker()|] == pat.Marker() && IsWhiteSpace(s[p + |pat.Marker()|])
  {
    if MatchesAt(s, pat, p) {
      var c :| Split(s, pat, p, c);
    }
  }

  // ----- Worked examples -----

  /** The white space after `#` may be a line break: the title is on the next line. */
  lemma ExampleHashThenNewline()
    ensures Extract("#\nTitle") == Some("Title")
  {
    var s := "#\nTitle";
    assert SpaceRunEnd(s, 1) == 2;
    assert LastNonBreak(s, 2, 3) == Some(2);
    assert LineEndFrom(s, 2) == 7;
    assert AtxAt(s, "#", 0) == Some(Span(2, 7));
    assert Find(s, AtxH1) == Some(Hit(0, Span(2, 7)));
    assert Captured(s, Span(2, 7)) == "Title";
    assert LeadingSpaceEnd("Title", 0) == 0;
    assert TrailingSpaceStart("Title", 0, 5) == 5;
    assert Trim("Title") == "Title";
  }

  /** A heading marker followed only by spaces yields the empty title, not null. */
  lemma ExampleEmptyTitle()
    ensures Extract("#  ") == Some("")
  {
    var s := "#  ";
    assert SpaceRunEnd(s, 1) == 3;
    assert LastNonBreak(s, 2, 3) == Some(2);
    assert LineEndFrom(s, 2) == 3;
    assert AtxAt(s, "#", 0) == Some(Span(2, 3));
    assert Find(s, AtxH1) == Some(Hit(0, Span(2, 3)));
    assert Captured(s, Span(2, 3)) == " ";
    assert LeadingSpaceEnd(" ", 0) == 1;
    assert Trim(" ") == "";
  }
}
