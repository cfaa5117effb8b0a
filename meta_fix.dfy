/**
 * The shortening rules of the metadata fixer: a title over 70 characters
 * loses a known site suffix and, if still too long, one secondary
 * descriptor; a description over 160 characters is cut back to whole
 * sentences, to the last space, or hard, in that order of preference.
 * The escaping helper that builds the patterns for the rewrite is
 * modelled with its inverse.
 */
module MetaFix {
  import opened Options
  import opened Chars
  import opened Strings
  import opened JsStrings
  import opened MetaShared

  /** The suffixes `shortenTitle` tries, in its order of preference. */
  const TitleSuffixList: seq<string> := [
    " | Kiropraktor Mads Finstad Majorstua Oslo",
    " | Chiropractor Mads Finstad Oslo",
    " | Klinikk for alle Majorstua",
    " | Kiropraktor Mads Finstad",
    " | Kiropraktor Majorstua",
    " | Klinikk for alle",
    " | Mads Finstad Kiropraktor",
    " | Mads Finstad Chiropractor",
    " | Chiropractor Oslo",
    " - Kiropraktor Mads Finstad",
    " - Kiropraktor Majorstua",
    " - Klinikk for alle",
    " - Chiropractor Oslo",
    " | TheBackROM",
    " | Majorstua Oslo",
    " Oslo"
  ]

  /**
   * The literal heads of the secondary-descriptor patterns; each pattern is
   * its head followed by `.*`, matched ignoring case.
   */
  const Descriptors: seq<string> := [
    " - Symptomer, ",
    " - Årsaker, ",
    " - Symptoms, ",
    " - Causes, ",
    " | Symptomer ",
    " | Symptoms "
  ]

  // ---------------------------------------------------------------------
  // Titles
  // ---------------------------------------------------------------------

  /** The descriptor pattern `d.*` occurs in `s` (`pattern.test`). */
  predicate HasDescriptor(s: string, d: string)
  {
    FoldedIndexOf(s, d, 0) >= 0
  }

  /** The position in `ds` of the first descriptor occurring in `s`, or |ds|. */
  function FirstDescriptor(s: string, ds: seq<string>): (k: nat)
    ensures k <= |ds|
    ensures k < |ds| ==> HasDescriptor(s, ds[k])
    ensures forall j :: 0 <= j < k ==> !HasDescriptor(s, ds[j])
    decreases |ds|
  {
    if ds == [] then 0
    else if HasDescriptor(s, ds[0]) then 0
    else 1 + FirstDescriptor(s, ds[1..])
  }

  /**
   * `s.replace(/d.*\/i, '')`: the leftmost case-insensitive occurrence of
   * `d` and the rest of its line are deleted.
   */
  function RemoveDescriptor(s: string, d: string): (r: string)
    ensures !HasDescriptor(s, d) ==> r == s
    ensures HasDescriptor(s, d) ==>
      var i := FoldedIndexOf(s, d, 0);
      var j := LineEnd(s, i + |d|);
      FoldedAt(s, d, i) && (forall k :: 0 <= k < i ==> !FoldedAt(s, d, k))
      && r == s[..i] + s[j..] && (forall k :: i + |d| <= k < j ==> !IsLineTerminator(s[k]))
      && (j < |s| ==> IsLineTerminator(s[j]))
  {
    var i := FoldedIndexOf(s, d, 0);
    if i < 0 then s else s[..i] + s[LineEnd(s, i + |d|)..]
  }

  /** The descriptor loop: the first descriptor that occurs is removed, and no other. */
  function WithoutDescriptor(s: string, ds: seq<string>): string
  {
    var k := FirstDescriptor(s, ds);
    if k < |ds| then RemoveDescriptor(s, ds[k]) else s
  }

  /** `for (const pattern of morePatterns) { if (pattern.test(s)) { s = s.replace(pattern, ''); break; } }`. */
  method RemoveFirstDescriptor(s: string, ds: seq<string>) returns (r: string)
    ensures r == WithoutDescriptor(s, ds)
  {
    r := s;
    var i := 0;
    while i < |ds|
      invariant 0 <= i <= |ds|
      invariant forall j :: 0 <= j < i ==> !HasDescriptor(s, ds[j])
      invariant r == s
      decreases |ds| - i
    {
      var at := FoldedIndexOf(r, ds[i], 0);
      if at >= 0 {
        r := r[..at] + r[LineEnd(r, at + |ds[i]|)..];
        assert r == RemoveDescriptor(s, ds[i]);
        break;
      }
      i := i + 1;
    }
    FirstDescriptorIs(s, ds, i);
  }

  /** A position where a descriptor occurs and none before it does is the first descriptor's. */
  lemma {:induction false} FirstDescriptorIs(s: string, ds: seq<string>, i: nat)
    requires i <= |ds| && (i < |ds| ==> HasDescriptor(s, ds[i]))
    requires forall j :: 0 <= j < i ==> !HasDescriptor(s, ds[j])
    ensures FirstDescriptor(s, ds) == i
    decreases i
  {
    if i > 0 {
      assert forall j :: 0 <= j < i - 1 ==> ds[1..][j] == ds[j + 1];
      FirstDescriptorIs(s, ds[1..], i - 1);
    }
  }

  /** What `shortenTitle` returns: the shortened title, or None for JavaScript's null. */
  function ShortTitle(title: string): Option<string>
  {
    ShortTitleWith(title, TitleSuffixList, Descriptors)
  }

  /** `shortenTitle`, with its two loops. */
  method ShortenTitle(title: string) returns (r: Option<string>)
    ensures r == ShortTitle(title)
  {
    var shortened := StripFirstSuffix(title, TitleSuffixList);
    if |shortened| > TitleLimit {
      shortened := RemoveFirstDescriptor(shortened, Descriptors);
    }
    r := if |shortened| <= TitleLimit then Some(shortened) else None;
  }

  /** `RemoveDescriptor` only deletes: the result is `s` with one segment taken out. */
  lemma RemoveDescriptorDeletes(s: string, d: string)
    ensures exists i: nat, j: nat :: i <= j <= |s| && RemoveDescriptor(s, d) == s[..i] + s[j..]
  {
    if HasDescriptor(s, d) {
      var i := FoldedIndexOf(s, d, 0);
      var j := LineEnd(s, i + |d|);
      assert i <= j <= |s| && RemoveDescriptor(s, d) == s[..i] + s[j..];
    } else {
      assert RemoveDescriptor(s, d) == s[..|s|] + s[|s|..];
    }
  }

  /** `ShortTitle` for any suffix and descriptor lists. */
  function ShortTitleWith(title: string, suffixes: seq<string>, ds: seq<string>): Option<string>
  {
    var s := Stripped(title, suffixes);
    var t := if |s| > TitleLimit then WithoutDescriptor(s, ds) else s;
    if |t| <= TitleLimit then Some(t) else None
  }

  /**
   * A shortened title is the original with at most two pieces taken out:
   * the matched suffix at the end, and one descriptor up to the end of its
   * line; it is at most 70 characters long.
   */
  lemma ShortTitleDeletes(title: string, suffixes: seq<string>, ds: seq<string>)
    requires ShortTitleWith(title, suffixes, ds).Some?
    ensures |ShortTitleWith(title, suffixes, ds).value| <= TitleLimit
    ensures exists i: nat, j: nat, m: nat :: i <= j <= m <= |title| && ShortTitleWith(title, suffixes, ds).value == title[..i] + title[j..m]
  {
    var s := Stripped(title, suffixes);
    var m := |s|;
    assert s == title[..m];
    if |s| > TitleLimit {
      var k := FirstDescriptor(s, ds);
      if k < |ds| {
        RemoveDescriptorDeletes(s, ds[k]);
        var i: nat, j: nat :| i <= j <= |s| && RemoveDescriptor(s, ds[k]) == s[..i] + s[j..];
        assert s[..i] == title[..i] && s[j..] == title[j..m];
      } else {
        assert false;
      }
    } else {
      assert s == title[..m] + title[m..m];
    }
  }

  /** `shortenTitle` gives null only for a title that was already too long. */
  lemma ShortTitleNullOnlyWhenLong(title: string, suffixes: seq<string>, ds: seq<string>)
    ensures ShortTitleWith(title, suffixes, ds).None? ==> |title| > TitleLimit
  {
    var s := Stripped(title, suffixes);
    if |s| > TitleLimit {
      RemoveDescriptorLength(s, ds);
    }
  }

  lemma RemoveDescriptorLength(s: string, ds: seq<string>)
    ensures |WithoutDescriptor(s, ds)| <= |s|
  {
    var k := FirstDescriptor(s, ds);
    if k < |ds| {
      RemoveDescriptorDeletes(s, ds[k]);
    }
  }

  // ---------------------------------------------------------------------
  // Descriptions
  // ---------------------------------------------------------------------

  const SentenceRoom: nat := 157
  /** The last index at which `shortenDescription` looks for a space. */
  const SpaceFrom: nat := 155

  /** A character of the class `[.!?]`. */
  predicate IsTerminator(c: char)
  {
    c == '.' || c == '!' || c == '?'
  }

  /** The end of the run starting at `p` of terminators (`term`) or of other characters. */
  function RunEnd(s: string, p: nat, term: bool): (q: nat)
    requires p <= |s|
    ensures p <= q <= |s|
    ensures p < q ==> IsTerminator(s[q - 1]) == term
    ensures q < |s| ==> IsTerminator(s[q]) != term
    decreases |s| - p
  {
    if p == |s| || IsTerminator(s[p]) != term then p else RunEnd(s, p + 1, term)
  }

  /** The run is the longest one: every character up to its end is of its kind. */
  lemma {:induction false} RunEndIsRun(s: string, p: nat, term: bool)
    requires p <= |s|
    ensures forall k :: p <= k < RunEnd(s, p, term) ==> IsTerminator(s[k]) == term
    decreases |s| - p
  {
    if p < |s| && IsTerminator(s[p]) == term {
      RunEndIsRun(s, p + 1, term);
    }
  }

  /** Some text that is not a terminator, followed by terminators. */
  predicate IsSentence(x: string)
  {
    x != [] && !IsTerminator(x[0]) && IsTerminator(x[|x| - 1])
  }

  /**
   * The matches of `/[^.!?]+[.!?]+/g` from `p`, where no terminator is at
   * `p`: each is the longest run of other characters followed by the
   * longest run of terminators; a run not followed by a terminator is no
   * match.
   */
  function SentencesFrom(s: string, p: nat): (ss: seq<string>)
    requires p <= |s| && (p < |s| ==> !IsTerminator(s[p]))
    decreases |s| - p
  {
    var q := RunEnd(s, p, false);
    if q == |s| then []
    else
      var r := RunEnd(s, q, true);
      [s[p..r]] + SentencesFrom(s, r)
  }

  /** Every match is a sentence: text, then terminators. */
  lemma {:induction false} SentencesAreSentences(s: string, p: nat)
    requires p <= |s| && (p < |s| ==> !IsTerminator(s[p]))
    ensures forall k :: 0 <= k < |SentencesFrom(s, p)| ==> IsSentence(SentencesFrom(s, p)[k])
    decreases |s| - p
  {
    var q := RunEnd(s, p, false);
    if q < |s| {
      var r := RunEnd(s, q, true);
      SentencesAreSentences(s, r);
      var ss := SentencesFrom(s, p);
      assert ss == [s[p..r]] + SentencesFrom(s, r);
      assert s[p..r][0] == s[p] && s[p..r][r - p - 1] == s[r - 1];
      forall k | 0 < k < |ss|
        ensures IsSentence(ss[k])
      {
        assert ss[k] == SentencesFrom(s, r)[k - 1];
      }
    }
  }

  /** Where the first match starts: after any leading terminators. */
  function SentenceStart(s: string): (p: nat)
    ensures p <= |s| && (p < |s| ==> !IsTerminator(s[p]))
  {
    RunEnd(s, 0, true)
  }

  /** `desc.match(/[^.!?]+[.!?]+/g) || []`. */
  function Sentences(s: string): seq<string>
  {
    SentencesFrom(s, SentenceStart(s))
  }

  /** The concatenation of a list of strings. */
  function Concat(ss: seq<string>): string
    decreases |ss|
  {
    if ss == [] then [] else ss[0] + Concat(ss[1..])
  }

  lemma {:induction false} ConcatAppend(a: seq<string>, b: seq<string>)
    ensures Concat(a + b) == Concat(a) + Concat(b)
    decreases |a|
  {
    if a == [] {
      assert a + b == b;
    } else {
      assert (a + b)[0] == a[0] && (a + b)[1..] == a[1..] + b;
      ConcatAppend(a[1..], b);
    }
  }

  /** Leading sentences are contiguous text: any number of them, joined, is the slice of `s` they came from. */
  lemma {:induction false} SentencesContiguous(s: string, p: nat, n: nat)
    requires p <= |s| && (p < |s| ==> !IsTerminator(s[p]))
    requires n <= |SentencesFrom(s, p)|
    ensures var c := Concat(SentencesFrom(s, p)[..n]);
      p + |c| <= |s| && c == s[p..p + |c|]
    decreases |s| - p
  {
    if n > 0 {
      var r := SentencesFromStep(s, p);
      var tail := SentencesFrom(s, r);
      var head := s[p..r];
      TakeCons(head, tail, n);
      ConcatCons(head, tail[..n - 1]);
      SentencesContiguous(s, r, n - 1);
      var rest := Concat(tail[..n - 1]);
      var c := Concat(SentencesFrom(s, p)[..n]);
      assert c == head + rest;
      assert rest == s[r..r + |rest|];
      SliceJoin(s, p, r, r + |rest|);
      assert |c| == r - p + |rest|;
      assert c == s[p..r + |rest|];
    } else {
      assert SentencesFrom(s, p)[..0] == [];
    }
  }

  /** The first match of a non-empty list, and where the next one is looked for. */
  lemma SentencesFromStep(s: string, p: nat) returns (r: nat)
    requires p <= |s| && (p < |s| ==> !IsTerminator(s[p]))
    requires SentencesFrom(s, p) != []
    ensures p < r <= |s| && (r < |s| ==> !IsTerminator(s[r]))
    ensures SentencesFrom(s, p) == [s[p..r]] + SentencesFrom(s, r)
  {
    var q := RunEnd(s, p, false);
    r := RunEnd(s, q, true);
  }

  lemma TakeCons<T>(x: T, tail: seq<T>, n: nat)
    requires 0 < n <= |tail| + 1
    ensures ([x] + tail)[..n] == [x] + tail[..n - 1]
  {
  }

  lemma ConcatCons(x: string, rest: seq<string>)
    ensures Concat([x] + rest) == x + Concat(rest)
  {
    assert ([x] + rest)[0] == x && ([x] + rest)[1..] == rest;
  }

  lemma SliceJoin(s: string, a: nat, b: nat, c: nat)
    requires a <= b <= c <= |s|
    ensures s[a..b] + s[b..c] == s[a..c]
  {
  }

  /**
   * How many leading sentences the accumulation loop takes: as many as fit
   * in `room` characters together.
   */
  function Fitting(ss: seq<string>, room: nat): (n: nat)
    ensures n <= |ss|
    decreases |ss|
  {
    if ss == [] || |ss[0]| > room then 0 else 1 + Fitting(ss[1..], room - |ss[0]|)
  }

  /** The sentences taken fit in the room, and one more would not. */
  lemma {:induction false} FittingFits(ss: seq<string>, room: nat)
    ensures |Concat(ss[..Fitting(ss, room)])| <= room
    ensures Fitting(ss, room) < |ss| ==> |Concat(ss[..Fitting(ss, room) + 1])| > room
    decreases |ss|
  {
    var n := Fitting(ss, room);
    if ss == [] || |ss[0]| > room {
      assert ss[..0] == [];
      if ss != [] {
        assert ss[..1] == [ss[0]] + [];
        ConcatAppend([ss[0]], []);
        assert Concat([ss[0]]) == ss[0] + Concat([]);
      }
    } else {
      var m := Fitting(ss[1..], room - |ss[0]|);
      FittingFits(ss[1..], room - |ss[0]|);
      assert Concat([ss[0]]) == ss[0] + Concat([]);
      assert ss[..m + 1] == [ss[0]] + ss[1..][..m];
      ConcatAppend([ss[0]], ss[1..][..m]);
      if m < |ss[1..]| {
        assert ss[..m + 2] == [ss[0]] + ss[1..][..m + 1];
        ConcatAppend([ss[0]], ss[1..][..m + 1]);
      }
    }
  }

  lemma FittingStep(ss: seq<string>, i: nat, room: nat)
    requires i < |ss| && |ss[i]| <= room
    ensures Fitting(ss[i..], room) == 1 + Fitting(ss[i + 1..], room - |ss[i]|)
  {
    assert ss[i..][0] == ss[i] && ss[i..][1..] == ss[i + 1..];
  }

  /** The accumulation loop of `shortenDescription`. */
  method AccumulateSentences(ss: seq<string>) returns (acc: string)
    ensures acc == Concat(ss[..Fitting(ss, SentenceRoom)])
  {
    acc := [];
    var i := 0;
    while i < |ss|
      invariant 0 <= i <= |ss| && |acc| <= SentenceRoom
      invariant acc == Concat(ss[..i])
      invariant Fitting(ss, SentenceRoom) == i + Fitting(ss[i..], SentenceRoom - |acc|)
      decreases |ss| - i
    {
      var sentence := ss[i];
      if |acc + sentence| <= SentenceRoom {
        FittingStep(ss, i, SentenceRoom - |acc|);
        assert ss[..i + 1] == ss[..i] + [sentence];
        ConcatAppend(ss[..i], [sentence]);
        assert Concat([sentence]) == sentence + Concat([]);
        acc := acc + sentence;
        i := i + 1;
      } else {
        assert ss[i..][0] == sentence;
        break;
      }
    }
    assert ss[..i] == ss[..Fitting(ss, SentenceRoom)];
  }

  /** The sentences the accumulation loop keeps, joined. */
  function Accumulated(desc: string): string
  {
    var ss := Sentences(desc);
    Concat(ss[..Fitting(ss, SentenceRoom)])
  }

  /** What `shortenDescription` returns. */
  function ShortDescription(desc: string): string
  {
    if |desc| <= DescriptionLimit then desc
    else
      var accumulated := Accumulated(desc);
      if |accumulated| >= 100 then Trim(accumulated) else CutAtSpace(desc)
  }

  /** The fallback of `shortenDescription`: the text before the last space, or a hard cut, with "...". */
  function CutAtSpace(desc: string): string
    requires |desc| > DescriptionLimit
  {
    var lastSpace := LastIndexOf(desc, " ", SpaceFrom);
    if lastSpace > 100 then Trim(desc[..lastSpace]) + "..."
    else Trim(desc[..157]) + "..."
  }

  /** `shortenDescription`. */
  method ShortenDescription(desc: string) returns (r: string)
    ensures r == ShortDescription(desc)
  {
    if |desc| <= DescriptionLimit {
      return desc;
    }
    var sentences := Sentences(desc);
    var accumulated := AccumulateSentences(sentences);
    if |accumulated| >= 100 {
      return Trim(accumulated);
    }
    var lastSpace := LastIndexOf(desc, " ", SpaceFrom);
    if lastSpace > 100 {
      return Trim(desc[..lastSpace]) + "...";
    }
    return Trim(desc[..157]) + "...";
  }

  /**
   * The kept sentences are one stretch of the text, from where the first
   * sentence starts, at most 157 characters long, and end in a terminator
   * unless none was kept.
   */
  lemma AccumulatedRun(desc: string)
    ensures var p, a := SentenceStart(desc), Accumulated(desc);
      |a| <= SentenceRoom && p + |a| <= |desc| && a == desc[p..p + |a|]
      && (a != [] ==> IsTerminator(desc[p + |a| - 1]))
  {
    var p := SentenceStart(desc);
    var ss := Sentences(desc);
    var n := Fitting(ss, SentenceRoom);
    var a := Concat(ss[..n]);
    assert a == Accumulated(desc);
    FittingFits(ss, SentenceRoom);
    SentencesContiguous(desc, p, n);
    assert a == desc[p..p + |a|];
    if a != [] {
      KeptSentencesEnd(desc, p, n);
      assert desc[p..p + |a|][|a| - 1] == desc[p + |a| - 1];
    }
  }

  /** Any number of leading sentences, joined, ends in a terminator, unless there are none. */
  lemma KeptSentencesEnd(s: string, p: nat, n: nat)
    requires p <= |s| && (p < |s| ==> !IsTerminator(s[p]))
    requires n <= |SentencesFrom(s, p)| && Concat(SentencesFrom(s, p)[..n]) != []
    ensures var c := Concat(SentencesFrom(s, p)[..n]); IsTerminator(c[|c| - 1])
  {
    var ss := SentencesFrom(s, p);
    assert ss[..0] == [] && Concat([]) == [];
    SentencesAreSentences(s, p);
    assert forall k :: 0 <= k < n ==> ss[..n][k] == ss[k];
    ConcatLast(ss[..n]);
  }

  /** Where `lastIndexOf(' ', from)` cuts: at a space, with no space after it up to index `from`. */
  lemma LastSpaceCut(desc: string, from: nat)
    requires |desc| > from
    ensures var c := LastIndexOf(desc, " ", from);
      (c >= 0 ==> desc[c] == ' ')
      && forall k :: c < k <= from ==> desc[k] != ' '
  {
    var c := LastIndexOf(desc, " ", from);
    if c >= 0 {
      assert OccursAt(desc, " ", c);
      assert desc[c..c + 1] == " ";
    }
    forall k | c < k <= from
      ensures desc[k] != ' '
    {
      assert !OccursAt(desc, " ", k);
      assert desc[k..k + 1] == [desc[k]];
    }
  }

  /** A description of at most 160 characters is kept; any other comes back at most 160 characters long. */
  lemma ShortDescriptionBound(desc: string)
    ensures |ShortDescription(desc)| <= DescriptionLimit
    ensures |desc| <= DescriptionLimit ==> ShortDescription(desc) == desc
  {
    AccumulatedRun(desc);
  }

  /**
   * The three ways a long description is cut: whole sentences from the
   * first one, at least 100 and at most 157 characters of them, ending in
   * a terminator; else the text before the last space at index above 100
   * and at most 155, with "..."; else the first 157 characters with "...".
   */
  lemma ShortDescriptionCuts(desc: string)
    requires |desc| > DescriptionLimit
    ensures var r := ShortDescription(desc);
      var p := SentenceStart(desc);
      (exists e: nat :: (p + 100 <= e <= p + SentenceRoom && e <= |desc| && IsTerminator(desc[e - 1])
                          && r == Trim(desc[p..e])))
      || (exists c: nat :: (100 < c <= SpaceFrom && desc[c] == ' ' && (forall k :: c < k <= SpaceFrom ==> desc[k] != ' ')
                           && r == Trim(desc[..c]) + "..."))
      || ((forall k :: 100 < k <= SpaceFrom ==> desc[k] != ' ') && r == Trim(desc[..157]) + "...")
  {
    var p, a := SentenceStart(desc), Accumulated(desc);
    AccumulatedRun(desc);
    LastSpaceCut(desc, SpaceFrom);
    if |a| >= 100 {
      var e := p + |a|;
      assert p + 100 <= e <= p + SentenceRoom && e <= |desc| && IsTerminator(desc[e - 1]) && ShortDescription(desc) == Trim(desc[p..e]);
    } else {
      var c := LastIndexOf(desc, " ", SpaceFrom);
      if c > 100 {
        assert ShortDescription(desc) == Trim(desc[..c]) + "...";
      }
    }
  }

  /** The last character of a concatenation of sentences ends the last sentence. */
  lemma {:induction false} ConcatLast(ss: seq<string>)
    requires ss != [] && forall k :: 0 <= k < |ss| ==> IsSentence(ss[k])
    ensures Concat(ss) != [] && IsTerminator(Concat(ss)[|Concat(ss)| - 1])
    decreases |ss|
  {
    assert IsSentence(ss[0]);
    if |ss| > 1 {
      assert forall k :: 0 <= k < |ss[1..]| ==> ss[1..][k] == ss[k + 1];
      ConcatLast(ss[1..]);
    } else {
      assert ss[1..] == [];
    }
  }

  // ---------------------------------------------------------------------
  // Escaping
  // ---------------------------------------------------------------------

  /** The characters of the class `[.*+?^${}()|[\]\\]`. */
  predicate IsMeta(c: char)
  {
    c == '.' || c == '*' || c == '+' || c == '?' || c == '^' || c == '$' || c == '{' || c == '}'
    || c == '(' || c == ')' || c == '|' || c == '[' || c == ']' || c == '\\'
  }

  /** `escapeRegex`: every metacharacter gets a backslash in front; everything else is kept. */
  function EscapeRegex(s: string): (r: string)
    ensures |r| >= |s|
    decreases |s|
  {
    if s == [] then []
    else (if IsMeta(s[0]) then ['\\', s[0]] else [s[0]]) + EscapeRegex(s[1..])
  }

  /** How a pattern reads a string of escaped literals: a backslash takes the next character literally. */
  function Unescape(r: string): string
    decreases |r|
  {
    if r == [] then []
    else if r[0] == '\\' && |r| >= 2 then [r[1]] + Unescape(r[2..])
    else [r[0]] + Unescape(r[1..])
  }

  /** The escaped pattern reads back as exactly the original text. */
  lemma {:induction false} UnescapeEscape(s: string)
    ensures Unescape(EscapeRegex(s)) == s
    decreases |s|
  {
    if s != [] {
      var e := EscapeRegex(s);
      var tail := EscapeRegex(s[1..]);
      UnescapeEscape(s[1..]);
      if IsMeta(s[0]) {
        assert e == ['\\', s[0]] + tail;
        assert e[2..] == tail;
      } else {
        assert e == [s[0]] + tail;
        assert e[1..] == tail;
      }
      assert s == [s[0]] + s[1..];
    }
  }

  /** In the escaped text no metacharacter stands unescaped, and text without metacharacters is kept as it is. */
  lemma {:induction false} EscapeRegexPlain(s: string)
    ensures (forall k :: 0 <= k < |s| ==> !IsMeta(s[k])) ==> EscapeRegex(s) == s
    ensures |EscapeRegex(s)| == |s| + |MetaIn(s)|
    decreases |s|
  {
    if s != [] {
      EscapeRegexPlain(s[1..]);
      assert forall k :: 0 <= k < |s[1..]| ==> s[1..][k] == s[k + 1];
      assert s == [s[0]] + s[1..];
    }
  }

  /** The metacharacters of `s`, in order. */
  function MetaIn(s: string): string
    decreases |s|
  {
    if s == [] then [] else (if IsMeta(s[0]) then [s[0]] else []) + MetaIn(s[1..])
  }
}
