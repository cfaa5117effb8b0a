/**
 * The word patterns of the Norwegian spellchecker, as a small matcher.
 *
 * Every pattern in the spellchecker's table is a sequence of literal text,
 * word boundaries (`\b`), one or more digits (`(\d+)`, the first group) and
 * one or more white-space characters (`\s+`). This module gives those
 * patterns a meaning in two ways: `Spans`, the set of spans a pattern can
 * match (the language of the regular expression), and `MatchFrom`, a
 * deterministic greedy matcher. When every run is followed by something it
 * cannot swallow (`Delimited`), the greedy matcher finds exactly the one
 * span the pattern can match at a position, so backtracking order does not
 * matter. `MatchesOf` is the scan of `re.finditer`: leftmost matches, each
 * search resuming where the previous match ended.
 */
module WordMatch {
  import opened Chars
  import opened Options

  /** The two character classes that occur in runs. */
  datatype Class = Digit | Space

  /** One element of a pattern. */
  datatype Token =
    | Lit(text: string)  // literal characters
    | Boundary           // `\b`
    | Run(cl: Class)  // `(\d+)` or `\s+`

  predicate InClass(c: char, cl: Class)
  {
    match cl
    case Digit => IsDigit(c)
    case Space => IsSpace(c)
  }

  /** The regular-expression text of a pattern. */
  function Source(toks: seq<Token>): string
  {
    if toks == [] then []
    else
      (match toks[0]
        case Lit(t) => t
        case Boundary => "\\b"
        case Run(Digit) => "(\\d+)"
        case Run(Space) => "\\s+") + Source(toks[1..])
  }

  /**
   * The flag the spellchecker passes for a pattern: case-insensitive
   * unless the pattern starts with a backslash followed by a character
   * that is not lower case.
   */
  predicate IgnoreCaseFlag(src: string)
    requires src != [] && (src[0] == '\\' ==> |src| >= 2)
  {
    src[0] != '\\' || IsLower(src[1])
  }

  // ---------------------------------------------------------------------
  // Positions
  // ---------------------------------------------------------------------

  /** Position `i` holds a word character. */
  predicate WordAt(s: string, i: int)
  {
    0 <= i < |s| && IsWordChar(s[i])
  }

  /** `\b`: a word character on exactly one side of position `i`. */
  predicate AtBoundary(s: string, i: int)
  {
    WordAt(s, i - 1) != WordAt(s, i)
  }

  /** Two characters match, case-insensitively when `ic` holds. */
  predicate SameChar(a: char, b: char, ic: bool)
  {
    if ic then ToLower(a) == ToLower(b) else a == b
  }

  /** The literal `t` matches at position `i`. */
  predicate LitAt(s: string, i: nat, t: string, ic: bool)
  {
    i + |t| <= |s| && forall k :: 0 <= k < |t| ==> SameChar(s[i + k], t[k], ic)
  }

  /** The characters s[i..j] all belong to class `cl`. */
  predicate AllIn(s: string, i: nat, j: nat, cl: Class)
    requires i <= j <= |s|
  {
    forall k :: i <= k < j ==> InClass(s[k], cl)
  }

  /** The length of the longest run of class `cl` starting at `i`. */
  function RunLength(s: string, i: nat, cl: Class): (n: nat)
    requires i <= |s|
    ensures i + n <= |s|
    ensures AllIn(s, i, i + n, cl)
    ensures i + n < |s| ==> !InClass(s[i + n], cl)
    decreases |s| - i
  {
    if i < |s| && InClass(s[i], cl) then 1 + RunLength(s, i + 1, cl) else 0
  }

  /** A run of exactly `n` characters of class `cl`, ended by the text or by another character, has length `n`. */
  lemma {:induction false} RunLengthExact(s: string, i: nat, n: nat, cl: Class)
    requires i + n <= |s| && AllIn(s, i, i + n, cl)
    requires i + n < |s| ==> !InClass(s[i + n], cl)
    ensures RunLength(s, i, cl) == n
    decreases n
  {
    if n > 0 {
      RunLengthExact(s, i + 1, n - 1, cl);
    }
  }

  // ---------------------------------------------------------------------
  // What a pattern can match
  // ---------------------------------------------------------------------

  /** The single token `tok` can match exactly s[i..j]. */
  predicate TokenSpans(s: string, i: nat, tok: Token, j: nat, ic: bool)
  {
    j <= |s| &&
    match tok
    case Lit(t) => LitAt(s, i, t, ic) && j == i + |t|
    case Boundary => AtBoundary(s, i) && j == i
    case Run(cl) => i < j && AllIn(s, i, j, cl)
  }

  /** The pattern `toks` can match exactly s[i..e]: its language, any split will do. */
  predicate Spans(s: string, i: nat, toks: seq<Token>, e: nat, ic: bool)
    decreases |toks|
  {
    if toks == [] then i == e <= |s|
    else exists j: nat :: i <= j <= e && TokenSpans(s, i, toks[0], j, ic) && Spans(s, j, toks[1..], e, ic)
  }

  /** A token's match followed by a match of the rest is a match of the whole pattern. */
  lemma SpansCons(s: string, i: nat, tok: Token, j: nat, rest: seq<Token>, e: nat, ic: bool)
    requires i <= j <= e && TokenSpans(s, i, tok, j, ic) && Spans(s, j, rest, e, ic)
    ensures Spans(s, i, [tok] + rest, e, ic)
  {
    assert ([tok] + rest)[0] == tok && ([tok] + rest)[1..] == rest;
  }

  /** The fewest characters a match of `toks` consumes. */
  function MinWidth(toks: seq<Token>): nat
  {
    if toks == [] then 0
    else
      (match toks[0]
        case Lit(t) => |t|
        case Boundary => 0
        case Run(_) => 1) + MinWidth(toks[1..])
  }

  /** No character of class `cl` can match the first thing `toks` consumes. */
  predicate Excludes(cl: Class, toks: seq<Token>)
  {
    toks != [] &&
    match toks[0]
    case Lit(t) => t != [] && !InClass(t[0], cl) && !InClass(ToLower(t[0]), cl)
    case Boundary => false
    case Run(c2) => c2 != cl
  }

  /** Every run is followed by a token that cannot continue it. */
  predicate Delimited(toks: seq<Token>)
  {
    toks == [] || ((toks[0].Run? ==> Excludes(toks[0].cl, toks[1..])) && Delimited(toks[1..]))
  }

  // ---------------------------------------------------------------------
  // The greedy matcher
  // ---------------------------------------------------------------------

  /** Where a greedy match of one token starting at `i` ends: a run takes all it can. */
  function TokenStep(s: string, i: nat, tok: Token, ic: bool): (r: Option<nat>)
    requires i <= |s|
    ensures r.Some? ==> i <= r.value <= |s| && TokenSpans(s, i, tok, r.value, ic)
    ensures r.Some? && tok.Lit? ==> r.value == i + |tok.text|
    ensures r.Some? && tok.Run? ==> i < r.value
  {
    match tok
    case Lit(t) => if LitAt(s, i, t, ic) then Some(i + |t|) else None
    case Boundary => if AtBoundary(s, i) then Some(i) else None
    case Run(cl) =>
      var n := RunLength(s, i, cl);
      if n > 0 then Some(i + n) else None
  }

  /** Where a greedy match of `toks` starting at `i` ends, if there is one. */
  function MatchFrom(s: string, i: nat, toks: seq<Token>, ic: bool): (r: Option<nat>)
    requires i <= |s|
    ensures r.Some? ==> i + MinWidth(toks) <= r.value <= |s|
    decreases |toks|
  {
    if toks == [] then Some(i)
    else
      var j := TokenStep(s, i, toks[0], ic);
      if j.Some? then MatchFrom(s, j.value, toks[1..], ic) else None
  }

  /** What the greedy matcher finds, the pattern can match. */
  lemma {:induction false} MatchFromSound(s: string, i: nat, toks: seq<Token>, ic: bool)
    requires i <= |s| && MatchFrom(s, i, toks, ic).Some?
    ensures Spans(s, i, toks, MatchFrom(s, i, toks, ic).value, ic)
    decreases |toks|
  {
    if toks != [] {
      var j := TokenStep(s, i, toks[0], ic).value;
      MatchFromSound(s, j, toks[1..], ic);
    }
  }

  /** A digit or a space is its own lower-case form. */
  lemma ClassUncased(c: char, cl: Class)
    requires InClass(c, cl)
    ensures ToLower(c) == c
  {
  }

  /** A pattern that excludes class `cl` cannot start matching on a character of `cl`. */
  lemma ExcludedStart(s: string, j: nat, toks: seq<Token>, e: nat, ic: bool, cl: Class)
    requires Excludes(cl, toks) && Spans(s, j, toks, e, ic)
    ensures j < |s| && !InClass(s[j], cl)
  {
    var j' :| j <= j' <= e && TokenSpans(s, j, toks[0], j', ic) && Spans(s, j', toks[1..], e, ic);
    match toks[0]
    case Lit(t) =>
      assert SameChar(s[j + 0], t[0], ic);
      if InClass(s[j], cl) {
        ClassUncased(s[j], cl);
      }
    case Run(c2) =>
      assert InClass(s[j], c2);
  }

  /**
   * One token that can match s[i..j], followed by a rest that matches from
   * `j`, is a token the greedy step ends at `j` for, when the pattern is
   * delimited.
   */
  lemma StepComplete(s: string, i: nat, toks: seq<Token>, j: nat, e: nat, ic: bool)
    requires toks != [] && Delimited(toks)
    requires i <= j && TokenSpans(s, i, toks[0], j, ic) && Spans(s, j, toks[1..], e, ic)
    ensures TokenStep(s, i, toks[0], ic) == Some(j)
  {
    if toks[0].Run? {
      var cl := toks[0].cl;
      var n := RunLength(s, i, cl);
      ExcludedStart(s, j, toks[1..], e, ic, cl);
    }
  }

  /**
   * For a delimited pattern the greedy matcher is complete: any span the
   * pattern can match at `i` is the one the matcher finds, so the span is
   * unique and no other backtracking choice leads anywhere.
   */
  lemma {:induction false} MatchFromComplete(s: string, i: nat, toks: seq<Token>, e: nat, ic: bool)
    requires Delimited(toks) && Spans(s, i, toks, e, ic)
    ensures MatchFrom(s, i, toks, ic) == Some(e)
    decreases |toks|
  {
    if toks != [] {
      var j: nat :| i <= j <= e && TokenSpans(s, i, toks[0], j, ic) && Spans(s, j, toks[1..], e, ic);
      StepComplete(s, i, toks, j, e, ic);
      MatchFromComplete(s, j, toks[1..], e, ic);
    }
  }

  /** A delimited pattern matches at `i` exactly when the greedy matcher says so. */
  lemma MatchFromIff(s: string, i: nat, toks: seq<Token>, ic: bool)
    requires i <= |s| && Delimited(toks)
    ensures MatchFrom(s, i, toks, ic).Some? <==> exists e: nat :: Spans(s, i, toks, e, ic)
  {
    if MatchFrom(s, i, toks, ic).Some? {
      var e := MatchFrom(s, i, toks, ic).value;
      MatchFromSound(s, i, toks, ic);
      assert Spans(s, i, toks, e, ic);
    }
    if exists e: nat :: Spans(s, i, toks, e, ic) {
      var e: nat :| Spans(s, i, toks, e, ic);
      MatchFromComplete(s, i, toks, e, ic);
    }
  }

  // ---------------------------------------------------------------------
  // The scan
  // ---------------------------------------------------------------------

  /** A matched span: s[start..end]. */
  datatype Span = Span(start: nat, end: nat)

  /**
   * Where a match starting at each position 0..|s| ends, if there is one:
   * entry i is `MatchFrom(s, i, ...)`. Every match ends inside the text
   * and after the position it starts at.
   */
  predicate TableOk(t: seq<Option<nat>>)
  {
    forall i :: 0 <= i < |t| && t[i].Some? ==> i < t[i].value < |t|
  }

  /** The match table of a pattern over a text. */
  function MatchTable(s: string, toks: seq<Token>, ic: bool): (t: seq<Option<nat>>)
    requires MinWidth(toks) > 0
    ensures |t| == |s| + 1 && TableOk(t)
  {
    seq(|s| + 1, i requires 0 <= i <= |s| => MatchFrom(s, i, toks, ic))
  }

  /** Entry `i` of the table is the match from position `i`. */
  lemma MatchTableAt(s: string, toks: seq<Token>, ic: bool)
    requires MinWidth(toks) > 0
    ensures forall i :: 0 <= i <= |s| ==> MatchTable(s, toks, ic)[i] == MatchFrom(s, i, toks, ic)
  {
  }

  /** Spans in increasing order, none overlapping the next, all within [from, len). */
  predicate Ordered(ms: seq<Span>, from: nat, len: nat)
  {
    (forall k :: 0 <= k < |ms| ==> from <= ms[k].start < ms[k].end < len)
    && (forall j, k :: 0 <= j < k < |ms| ==> ms[j].end <= ms[k].start)
  }

  /**
   * `re.finditer` over a match table: the leftmost match at or after
   * `from`, then the scan resumes where that match ended.
   */
  function Scan(t: seq<Option<nat>>, from: nat): (ms: seq<Span>)
    requires TableOk(t) && from < |t|
    decreases |t| - from
  {
    if t[from].Some? then [Span(from, t[from].value)] + Scan(t, t[from].value)
    else if from + 1 < |t| then Scan(t, from + 1)
    else []
  }

  /** The spans `re.finditer` reports for a pattern over a text. */
  function MatchesOf(s: string, toks: seq<Token>, ic: bool): seq<Span>
    requires MinWidth(toks) > 0
  {
    Scan(MatchTable(s, toks, ic), 0)
  }

  /** Position `i` lies in one of the spans. */
  predicate Covered(ms: seq<Span>, i: nat)
  {
    exists k :: 0 <= k < |ms| && ms[k].start <= i < ms[k].end
  }

  /**
   * A declarative description of a scan from `from`: ordered spans, each
   * one a match, and every position from `from` on where a match starts
   * lies in one of the spans (it is reported, or swallowed by an earlier
   * match).
   */
  predicate IsScan(t: seq<Option<nat>>, from: nat, ms: seq<Span>)
  {
    Ordered(ms, from, |t|)
    && (forall k :: 0 <= k < |ms| ==> t[ms[k].start] == Some(ms[k].end))
    && (forall i :: from <= i < |t| && t[i].Some? ==> Covered(ms, i))
  }

  /** A scan whose first position has no match is a scan from the next position. */
  lemma ScanSkip(t: seq<Option<nat>>, from: nat, ms: seq<Span>)
    requires from < |t| && t[from].None? && IsScan(t, from + 1, ms)
    ensures IsScan(t, from, ms)
  {
  }

  /** Putting a span in front of ordered spans that start after it. */
  lemma OrderedCons(from: nat, e: nat, ms: seq<Span>, len: nat)
    requires from < e < len && Ordered(ms, e, len)
    ensures Ordered([Span(from, e)] + ms, from, len)
  {
    var ms' := [Span(from, e)] + ms;
    assert forall k :: 0 < k < |ms'| ==> ms'[k] == ms[k - 1];
  }

  /** A match at `from` followed by a scan from its end is a scan from `from`. */
  lemma ScanCons(t: seq<Option<nat>>, from: nat, e: nat, ms: seq<Span>)
    requires from < e < |t| && t[from] == Some(e) && IsScan(t, e, ms)
    ensures IsScan(t, from, [Span(from, e)] + ms)
  {
    var ms' := [Span(from, e)] + ms;
    OrderedCons(from, e, ms, |t|);
    assert forall k :: 0 < k < |ms'| ==> ms'[k] == ms[k - 1];
    forall i | from <= i < |t| && t[i].Some?
      ensures Covered(ms', i)
    {
      if i < e {
        assert ms'[0].start <= i < ms'[0].end;
      } else {
        var k :| 0 <= k < |ms| && ms[k].start <= i < ms[k].end;
        assert ms'[k + 1] == ms[k];
      }
    }
  }

  /** The scan function produces a scan in the declarative sense. */
  lemma {:induction false} ScanIsScan(t: seq<Option<nat>>, from: nat)
    requires TableOk(t) && from < |t|
    ensures IsScan(t, from, Scan(t, from))
    decreases |t| - from
  {
    if t[from].Some? {
      ScanIsScan(t, t[from].value);
      ScanCons(t, from, t[from].value, Scan(t, t[from].value));
    } else if from + 1 < |t| {
      ScanIsScan(t, from + 1);
      ScanSkip(t, from, Scan(t, from + 1));
    }
  }

  /** What follows the first span of a scan is a scan from that span's end. */
  lemma ScanTail(t: seq<Option<nat>>, from: nat, ms: seq<Span>)
    requires IsScan(t, from, ms) && ms != []
    ensures IsScan(t, ms[0].end, ms[1..])
  {
    var tail := ms[1..];
    assert forall k :: 0 <= k < |tail| ==> tail[k] == ms[k + 1];
    forall i | ms[0].end <= i < |t| && t[i].Some?
      ensures Covered(tail, i)
    {
      var k :| 0 <= k < |ms| && ms[k].start <= i < ms[k].end;
      assert k != 0;
      assert tail[k - 1] == ms[k];
    }
  }

  /** The declarative description has exactly one solution: the scan function's. */
  lemma {:induction false} ScanUnique(t: seq<Option<nat>>, from: nat, ms: seq<Span>)
    requires TableOk(t) && from < |t| && IsScan(t, from, ms)
    ensures ms == Scan(t, from)
    decreases |t| - from
  {
    if ms != [] && ms[0].start == from {
      ScanTail(t, from, ms);
      ScanUnique(t, ms[0].end, ms[1..]);
      ScanFirst(t, from, ms);
    } else {
      ScanUnskip(t, from, ms);
      if from + 1 < |t| {
        ScanUnique(t, from + 1, ms);
      }
    }
  }

  /** A scan that starts at `from` is the first match followed by the scan of the rest. */
  lemma ScanFirst(t: seq<Option<nat>>, from: nat, ms: seq<Span>)
    requires TableOk(t) && from < |t| && ms != [] && ms[0].start == from
    requires t[from] == Some(ms[0].end) && ms[1..] == Scan(t, ms[0].end)
    ensures ms == Scan(t, from)
  {
    assert ms == [ms[0]] + ms[1..];
  }

  /** A scan that does not start at `from` has no match at `from` and is a scan from the next position. */
  lemma ScanUnskip(t: seq<Option<nat>>, from: nat, ms: seq<Span>)
    requires from < |t| && IsScan(t, from, ms) && !(ms != [] && ms[0].start == from)
    ensures t[from].None?
    ensures from + 1 < |t| ==> IsScan(t, from + 1, ms)
    ensures from + 1 == |t| ==> ms == []
  {
    assert forall k :: 0 < k < |ms| ==> ms[0].end <= ms[k].start;
  }

  /** The scan finds nothing exactly when no position from `from` on has a match. */
  lemma ScanEmpty(t: seq<Option<nat>>, from: nat)
    requires TableOk(t) && from < |t|
    ensures Scan(t, from) == [] <==> forall i :: from <= i < |t| ==> t[i].None?
  {
    ScanIsScan(t, from);
    var ms := Scan(t, from);
    if ms != [] {
      assert t[ms[0].start].Some?;
    }
  }

  /** Every reported span is a non-empty match of the pattern inside the text. */
  lemma MatchesOfSound(s: string, toks: seq<Token>, ic: bool)
    requires MinWidth(toks) > 0
    ensures forall k :: 0 <= k < |MatchesOf(s, toks, ic)| ==>
      MatchesOf(s, toks, ic)[k].start < MatchesOf(s, toks, ic)[k].end <= |s| &&
      Spans(s, MatchesOf(s, toks, ic)[k].start, toks, MatchesOf(s, toks, ic)[k].end, ic)
  {
    var t := MatchTable(s, toks, ic);
    MatchTableAt(s, toks, ic);
    var ms := Scan(t, 0);
    ScanIsScan(t, 0);
    forall k | 0 <= k < |ms|
      ensures ms[k].start < ms[k].end <= |s| && Spans(s, ms[k].start, toks, ms[k].end, ic)
    {
      MatchFromSound(s, ms[k].start, toks, ic);
    }
  }

  /**
   * No match is missed: every position where a match begins lies inside
   * a reported span (it starts one, or an earlier match swallowed it).
   */
  lemma MatchesOfComplete(s: string, toks: seq<Token>, ic: bool, i: nat, e: nat)
    requires MinWidth(toks) > 0 && Delimited(toks)
    requires i <= |s| && Spans(s, i, toks, e, ic)
    ensures Covered(MatchesOf(s, toks, ic), i)
  {
    var t := MatchTable(s, toks, ic);
    MatchTableAt(s, toks, ic);
    ScanIsScan(t, 0);
    MatchFromComplete(s, i, toks, e, ic);
    assert t[i].Some?;
  }

  /**
   * A match at a position where no earlier match begins is reported as it
   * stands: nothing before it can swallow it.
   */
  lemma LeftmostReported(s: string, toks: seq<Token>, ic: bool, i: nat, e: nat)
    requires MinWidth(toks) > 0 && Delimited(toks)
    requires i <= |s| && Spans(s, i, toks, e, ic)
    requires forall j: nat, e': nat :: j < i ==> !Spans(s, j, toks, e', ic)
    ensures Span(i, e) in MatchesOf(s, toks, ic)
  {
    var ms := MatchesOf(s, toks, ic);
    MatchesOfComplete(s, toks, ic, i, e);
    MatchesOfSound(s, toks, ic);
    var k :| 0 <= k < |ms| && ms[k].start <= i < ms[k].end;
    assert Spans(s, ms[k].start, toks, ms[k].end, ic);
    MatchFromComplete(s, i, toks, e, ic);
    MatchFromComplete(s, i, toks, ms[k].end, ic);
    assert ms[k] == Span(i, e);
  }

  /** Some position of the text begins a match of the pattern. */
  predicate MatchesSomewhere(s: string, toks: seq<Token>, ic: bool)
  {
    exists i: nat, e: nat :: i <= e <= |s| && Spans(s, i, toks, e, ic)
  }

  /** The scan reports nothing exactly when the pattern matches nowhere. */
  lemma MatchesOfEmpty(s: string, toks: seq<Token>, ic: bool)
    requires MinWidth(toks) > 0 && Delimited(toks)
    ensures MatchesOf(s, toks, ic) == [] <==> !MatchesSomewhere(s, toks, ic)
  {
    var t := MatchTable(s, toks, ic);
    MatchTableAt(s, toks, ic);
    ScanEmpty(t, 0);
    if MatchesSomewhere(s, toks, ic) {
      var i: nat, e: nat :| i <= e <= |s| && Spans(s, i, toks, e, ic);
      MatchFromComplete(s, i, toks, e, ic);
      assert t[i].Some?;
    }
    if MatchesOf(s, toks, ic) != [] {
      var i :| 0 <= i < |t| && t[i].Some?;
      MatchFromSound(s, i, toks, ic);
    }
  }

  /**
   * The first token of a pattern that consumes a character, as its text
   * begins: a boundary or a run, or a literal that does not begin with a
   * backslash.
   */
  predicate PlainLead(toks: seq<Token>)
  {
    toks != [] &&
    match toks[0]
    case Lit(t) => t != [] && t[0] != '\\'
    case Boundary => true
    case Run(_) => true
  }

  /** Every pattern of that form is matched case-insensitively. */
  lemma AlwaysIgnoreCase(toks: seq<Token>)
    requires PlainLead(toks)
    ensures var src := Source(toks); src != [] && (src[0] == '\\' ==> |src| >= 2) && IgnoreCaseFlag(src)
  {
    var src := Source(toks);
    match toks[0]
    case Lit(t) =>
      assert src == t + Source(toks[1..]);
      assert src[0] == t[0];
    case Boundary =>
      assert src == "\\b" + Source(toks[1..]);
      assert src[0] == '\\' && src[1] == 'b';
    case Run(cl) =>
      if cl == Digit {
        assert src == "(\\d+)" + Source(toks[1..]);
        assert src[0] == '(';
      } else {
        assert src == "\\s+" + Source(toks[1..]);
        assert src[0] == '\\' && src[1] == 's';
      }
  }

  /**
   * Under case-insensitive matching a character matched against an ASCII
   * letter is a word character too.
   */
  lemma FoldedLetterIsWord(x: char, c: char, ic: bool)
    requires 'a' <= c <= 'z' && SameChar(x, c, ic)
    ensures IsWordChar(x)
  {
  }

  /**
   * A boundary between two literals that end and begin with letters can
   * never hold: both neighbouring characters are word characters.
   */
  lemma LetterBoundaryLetter(s: string, i: nat, a: string, b: string, rest: seq<Token>, e: nat, ic: bool)
    requires a != [] && b != [] && 'a' <= a[|a| - 1] <= 'z' && 'a' <= b[0] <= 'z'
    ensures !Spans(s, i, [Lit(a), Boundary, Lit(b)] + rest, e, ic)
  {
    var toks := [Lit(a), Boundary, Lit(b)] + rest;
    if Spans(s, i, toks, e, ic) {
      var j: nat :| i <= j <= e && TokenSpans(s, i, toks[0], j, ic) && Spans(s, j, toks[1..], e, ic);
      var j2: nat :| j <= j2 <= e && TokenSpans(s, j, toks[1], j2, ic) && Spans(s, j2, toks[2..], e, ic);
      var j3: nat :| j2 <= j3 <= e && TokenSpans(s, j2, toks[2], j3, ic) && Spans(s, j3, toks[3..], e, ic);
      assert SameChar(s[i + (|a| - 1)], a[|a| - 1], ic);
      FoldedLetterIsWord(s[j - 1], a[|a| - 1], ic);
      assert SameChar(s[j + 0], b[0], ic);
      FoldedLetterIsWord(s[j], b[0], ic);
      assert false;
    }
  }
}
