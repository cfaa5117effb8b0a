/**
 * `fix_links` of website/scripts/python/fix-broken-links.py: broken
 * internal links in the English pages are corrected, first by the literal
 * table LINK_CORRECTIONS (in dictionary order, which is the order of the
 * literal since its keys are distinct), then by two regular-expression
 * passes that rename `cervical-disc-herniation.html` and
 * `neck/disc-herniation.html` targets of `href` attributes. Every
 * replacement is counted; a file is rewritten only in fix mode and only
 * when something was counted.
 */
module LinkFix {
  import opened Options
  import opened Strings
  import opened Rewrite

  // ---------------------------------------------------------------------
  // The literal table
  // ---------------------------------------------------------------------

  /** LINK_CORRECTIONS, lines 16-18: file names. */
  const RenamedFiles: seq<Rule> := [
    Rule("c5-c6-prolapse.html", "c5-c6-disc-herniation.html"),
    Rule("c6-c7-prolapse.html", "c6-c7-disc-herniation.html"),
    Rule("numbness-fingers.html", "finger-numbness.html")
  ]

  /** Line 19. */
  const LumbagoRule := Rule("lumbago.html", "acute-back-pain.html")

  /** Line 20. */
  const AcuteLumbagoRule := Rule("acute-lumbago.html", "acute-back-pain.html")

  /** Lines 23, 26 and 29: a folder typo, a doubled word and a relative link. */
  const OtherTypos: seq<Rule> := [
    Rule("/low-back/", "/lower-back/"),
    Rule("cervical-cervical-foraminal-stenosis.html", "cervical-foraminal-stenosis.html"),
    Rule("\"cervical-disc-herniation.html\"", "\"neck-disc-herniation.html\"")
  ]

  /** LINK_CORRECTIONS, lines 14-30, in dictionary order. */
  const LinkCorrections: seq<Rule> := RenamedFiles + [LumbagoRule, AcuteLumbagoRule] + OtherTypos

  /** The same table with the more specific key of line 20 ahead of line 19. */
  const IntendedCorrections: seq<Rule> := RenamedFiles + [AcuteLumbagoRule, LumbagoRule] + OtherTypos

  lemma TablesWellFormed()
    ensures WellFormed(LinkCorrections) && WellFormed(IntendedCorrections)
  {
  }

  // ---------------------------------------------------------------------
  // The two regular-expression passes
  // ---------------------------------------------------------------------

  /**
   * The pattern `href="([^"]*DIR)FILE"`: an href attribute whose value
   * ends with DIR followed by FILE.
   */
  datatype HrefPattern = HrefPattern(dir: string, file: string)

  /** Line 49. */
  const CervicalPattern := HrefPattern("/", "cervical-disc-herniation.html")

  /** Line 57. */
  const NeckPattern := HrefPattern("neck/", "disc-herniation.html")

  /** The file name both substitutions put in place of FILE (lines 52 and 60). */
  const NeckFile := "neck-disc-herniation.html"

  const HrefOpen := "href=\""

  /** Index of the first `"` at or after `j`, or `|s|` when there is none. */
  function NextQuote(s: string, j: nat): (k: nat)
    requires j <= |s|
    ensures j <= k <= |s|
    ensures forall m :: j <= m < k ==> s[m] != '"'
    ensures k < |s| ==> s[k] == '"'
    decreases |s| - j
  {
    if j == |s| || s[j] == '"' then j else NextQuote(s, j + 1)
  }

  /**
   * The pattern matches at `i`. Neither `[^"]*` nor DIR nor FILE can
   * contain a quote, so a match runs exactly to the first quote after the
   * opening one, and the attribute value in between must end with DIR
   * followed by FILE.
   */
  predicate MatchesAt(s: string, i: int, pat: HrefPattern)
  {
    0 <= i && i + 6 <= |s| && s[i..i + 6] == HrefOpen
    && var k := NextQuote(s, i + 6);
       k < |s| && i + 6 + |pat.dir| + |pat.file| <= k
       && s[k - |pat.file|..k] == pat.file
       && s[k - |pat.file| - |pat.dir|..k - |pat.file|] == pat.dir
  }

  /** `re.sub(pattern, r'href="\1' + repl + '"', s)`: leftmost, non-overlapping. */
  function Sub(s: string, pat: HrefPattern, repl: string): string
    decreases |s|
  {
    if s == [] then []
    else if MatchesAt(s, 0, pat) then
      var k := NextQuote(s, 6);
      HrefOpen + s[6..k - |pat.file|] + repl + "\"" + Sub(s[k + 1..], pat, repl)
    else [s[0]] + Sub(s[1..], pat, repl)
  }

  /** `len(re.findall(pattern, s))`: the same scan, counting. */
  function Matches(s: string, pat: HrefPattern): nat
    decreases |s|
  {
    if s == [] then 0
    else if MatchesAt(s, 0, pat) then
      var k := NextQuote(s, 6);
      1 + Matches(s[k + 1..], pat)
    else Matches(s[1..], pat)
  }

  /** Dropping the first character shifts the quote search by one. */
  lemma {:induction false} NextQuoteShift(s: string, j: nat)
    requires 1 <= j <= |s|
    ensures NextQuote(s, j) == NextQuote(s[1..], j - 1) + 1
    decreases |s| - j
  {
    if j < |s| && s[j] != '"' {
      assert s[1..][j - 1] == s[j];
      NextQuoteShift(s, j + 1);
    }
  }

  lemma MatchesAtShift(s: string, i: int, pat: HrefPattern)
    requires 1 <= i && s != []
    ensures MatchesAt(s, i, pat) <==> MatchesAt(s[1..], i - 1, pat)
  {
    if i + 6 <= |s| {
      NextQuoteShift(s, i + 6);
      var k := NextQuote(s, i + 6);
      TailSlice(s, i, i + 6);
      if k < |s| && i + 6 + |pat.dir| + |pat.file| <= k {
        TailSlice(s, k - |pat.file|, k);
        TailSlice(s, k - |pat.file| - |pat.dir|, k - |pat.file|);
      }
    }
  }

  lemma TailSlice(s: string, a: int, b: int)
    requires 1 <= a <= b <= |s|
    ensures s[1..][a - 1..b - 1] == s[a..b]
  {
    forall k | 0 <= k < b - a
      ensures s[1..][a - 1..b - 1][k] == s[a..b][k]
    {
      assert s[1..][a - 1 + k] == s[a + k];
    }
  }

  /** The pass counts nothing exactly when the pattern matches nowhere. */
  lemma {:induction false} MatchesZeroIff(s: string, pat: HrefPattern)
    ensures Matches(s, pat) == 0 <==> forall i :: 0 <= i < |s| ==> !MatchesAt(s, i, pat)
    decreases |s|
  {
    if s != [] && !MatchesAt(s, 0, pat) {
      MatchesZeroIff(s[1..], pat);
      forall i | 1 <= i < |s|
        ensures MatchesAt(s, i, pat) <==> MatchesAt(s[1..], i - 1, pat)
      {
        MatchesAtShift(s, i, pat);
      }
      if Matches(s, pat) == 0 {
        forall i | 0 <= i < |s|
          ensures !MatchesAt(s, i, pat)
        {
          if i > 0 {
            assert !MatchesAt(s[1..], i - 1, pat);
          }
        }
      } else {
        var j :| 0 <= j < |s[1..]| && MatchesAt(s[1..], j, pat);
        assert MatchesAt(s, j + 1, pat);
      }
    }
  }

  /** Where the pattern matches nowhere, the substitution changes nothing. */
  lemma {:induction false} SubNoMatches(s: string, pat: HrefPattern, repl: string)
    requires Matches(s, pat) == 0
    ensures Sub(s, pat, repl) == s
    decreases |s|
  {
    if s != [] {
      SubNoMatches(s[1..], pat, repl);
    }
  }

  /** A text without a quote has no href attribute for either pattern to match. */
  lemma NoQuoteNoMatch(s: string, pat: HrefPattern)
    requires '"' !in s
    ensures Matches(s, pat) == 0
  {
    forall i | 0 <= i < |s|
      ensures !MatchesAt(s, i, pat)
    {
      if i + 6 <= |s| {
        assert s[i..i + 6][5] == s[i + 5];
      }
    }
    MatchesZeroIff(s, pat);
  }

  // ---------------------------------------------------------------------
  // fix_links
  // ---------------------------------------------------------------------

  /** The text after the literal pass with `table` and both regular-expression passes. */
  function LinksWith(table: seq<Rule>, content: string): string
    requires WellFormed(table)
  {
    var t := ApplyAll(table, content);
    Sub(Sub(t, CervicalPattern, NeckFile), NeckPattern, NeckFile)
  }

  /** The `fixed` count of the same run. */
  function CountWith(table: seq<Rule>, content: string): nat
    requires WellFormed(table)
  {
    var t := ApplyAll(table, content);
    Hits(table, content) + Matches(t, CervicalPattern)
    + Matches(Sub(t, CervicalPattern, NeckFile), NeckPattern)
  }

  function Links(content: string): string
  {
    TablesWellFormed();
    LinksWith(LinkCorrections, content)
  }

  function LinkCount(content: string): nat
  {
    TablesWellFormed();
    CountWith(LinkCorrections, content)
  }

  /** One regular-expression pass (lines 49-53, 57-61): substitute and count, if anything matches. */
  method HrefPass(content: string, pat: HrefPattern) returns (newContent: string, matches: nat)
    ensures newContent == Sub(content, pat, NeckFile)
    ensures matches == Matches(content, pat)
    ensures matches == 0 ==> newContent == content
  {
    matches := Matches(content, pat);
    if matches > 0 {
      newContent := Sub(content, pat, NeckFile);
    } else {
      SubNoMatches(content, pat, NeckFile);
      newContent := content;
    }
  }

  /** `fix_links` (lines 35-63). */
  method FixLinks(content: string) returns (newContent: string, fixed: nat)
    ensures newContent == Links(content)
    ensures fixed == LinkCount(content)
    ensures fixed == 0 ==> newContent == content
  {
    TablesWellFormed();
    var literal, hits := ReplaceCounting(LinkCorrections, content);
    var afterCervical, cervical := HrefPass(literal, CervicalPattern);
    var neck;
    newContent, neck := HrefPass(afterCervical, NeckPattern);
    fixed := hits + cervical + neck;
    if fixed == 0 {
      NoHitsUnchanged(LinkCorrections, content);
    }
  }

  /**
   * Nothing is counted exactly when no key of the table occurs in the text
   * and neither pattern matches it; the text is then returned as it is.
   */
  lemma NothingToFix(table: seq<Rule>, content: string)
    requires WellFormed(table)
    ensures CountWith(table, content) == 0 <==>
      (forall i :: 0 <= i < |table| ==> !Occurs(content, table[i].bad))
      && (forall i :: 0 <= i < |content| ==> !MatchesAt(content, i, CervicalPattern))
      && (forall i :: 0 <= i < |content| ==> !MatchesAt(content, i, NeckPattern))
    ensures CountWith(table, content) == 0 ==> LinksWith(table, content) == content
  {
    var t := ApplyAll(table, content);
    if (forall i :: 0 <= i < |table| ==> !Occurs(content, table[i].bad)) {
      ApplyAllNoneOccurs(table, content);
    }
    if Hits(table, content) == 0 {
      NoHitsNoneOccurs(table, content);
      NoHitsUnchanged(table, content);
      MatchesZeroIff(content, CervicalPattern);
      if Matches(content, CervicalPattern) == 0 {
        SubNoMatches(content, CervicalPattern, NeckFile);
        MatchesZeroIff(content, NeckPattern);
        if Matches(content, NeckPattern) == 0 {
          SubNoMatches(content, NeckPattern, NeckFile);
        }
      }
    } else {
      ApplyAllNoneOccursCount(table, content);
    }
  }

  /** Hits are only counted for a key that occurs somewhere along the way. */
  lemma ApplyAllNoneOccursCount(table: seq<Rule>, content: string)
    requires WellFormed(table) && Hits(table, content) != 0
    ensures !forall i :: 0 <= i < |table| ==> !Occurs(content, table[i].bad)
  {
    if forall i :: 0 <= i < |table| ==> !Occurs(content, table[i].bad) {
      ApplyAllNoneOccurs(table, content);
    }
  }

  /**
   * One file of `scan_and_fix` (lines 94-107): the count, and the text
   * written back, if any. Writing happens only in fix mode and only when
   * something was counted.
   */
  method ScanFile(content: string, fix: bool) returns (fixedCount: nat, write: Option<string>)
    ensures fixedCount == LinkCount(content)
    ensures write.Some? <==> fix && fixedCount > 0
    ensures write.Some? ==> write.value == Links(content)
  {
    var newContent;
    newContent, fixedCount := FixLinks(content);
    if fixedCount > 0 && fix {
      write := Some(newContent);
    } else {
      write := None;
    }
  }

  /** A file in which nothing matches is never rewritten. */
  lemma CleanFileNotWritten(content: string)
    requires forall i :: 0 <= i < |LinkCorrections| ==> !Occurs(content, LinkCorrections[i].bad)
    requires '"' !in content
    ensures LinkCount(content) == 0 && Links(content) == content
  {
    TablesWellFormed();
    NoQuoteNoMatch(content, CervicalPattern);
    NoQuoteNoMatch(content, NeckPattern);
    MatchesZeroIff(content, CervicalPattern);
    MatchesZeroIff(content, NeckPattern);
    NothingToFix(LinkCorrections, content);
  }

  // ---------------------------------------------------------------------
  // The order of lines 19 and 20
  // ---------------------------------------------------------------------

  /**
   * No key contains an earlier key, so every key still finds its text when
   * its turn comes.
   */
  predicate Unshadowed(table: seq<Rule>)
  {
    forall i, j :: 0 <= i < j < |table| ==> !Occurs(table[j].bad, table[i].bad)
  }

  /** As written, `acute-lumbago.html` (line 20) contains the earlier key `lumbago.html` (line 19). */
  lemma LinkCorrectionsShadowed()
    ensures !Unshadowed(LinkCorrections)
  {
    assert "acute-lumbago.html"[6..18] == "lumbago.html";
    assert OccursAt(LinkCorrections[4].bad, LinkCorrections[3].bad, 6);
  }

  /** The reordered table has no shadowed key. */
  lemma IntendedUnshadowed()
    ensures Unshadowed(IntendedCorrections)
  {
    var keys := ["c5-c6-prolapse.html", "c6-c7-prolapse.html", "numbness-fingers.html", "acute-lumbago.html", "lumbago.html", "/low-back/", "cervical-cervical-foraminal-stenosis.html", "\"cervical-disc-herniation.html\""];
    assert forall i :: 0 <= i < 8 ==> IntendedCorrections[i].bad == keys[i];
    IntendedKey1Unshadowed();
    IntendedKey2Unshadowed();
    IntendedKey3Unshadowed();
    IntendedKey4Unshadowed();
    IntendedKey5Unshadowed();
    IntendedKey6Unshadowed();
    IntendedKey7Unshadowed();
  }

  lemma IntendedKey1Misses0()
    ensures !Occurs("c6-c7-prolapse.html", "c5-c6-prolapse.html")
  {
    MissingCharNoOccurrence("c6-c7-prolapse.html", "c5-c6-prolapse.html", '5');
  }

  lemma IntendedKey1Unshadowed()
    ensures !Occurs("c6-c7-prolapse.html", "c5-c6-prolapse.html")
  {
    IntendedKey1Misses0();
  }

  lemma IntendedKey2Misses0()
    ensures !Occurs("numbness-fingers.html", "c5-c6-prolapse.html")
  {
    MissingCharNoOccurrence("numbness-fingers.html", "c5-c6-prolapse.html", 'c');
  }

  lemma IntendedKey2Misses1()
    ensures !Occurs("numbness-fingers.html", "c6-c7-prolapse.html")
  {
    MissingCharNoOccurrence("numbness-fingers.html", "c6-c7-prolapse.html", 'c');
  }

  lemma IntendedKey2Unshadowed()
    ensures !Occurs("numbness-fingers.html", "c5-c6-prolapse.html")
    ensures !Occurs("numbness-fingers.html", "c6-c7-prolapse.html")
  {
    IntendedKey2Misses0();
    IntendedKey2Misses1();
  }

  lemma IntendedKey3Unshadowed()
    ensures !Occurs("acute-lumbago.html", "c5-c6-prolapse.html")
    ensures !Occurs("acute-lumbago.html", "c6-c7-prolapse.html")
    ensures !Occurs("acute-lumbago.html", "numbness-fingers.html")
  {
    ShortHasNoOccurrence("acute-lumbago.html", "c5-c6-prolapse.html");
    ShortHasNoOccurrence("acute-lumbago.html", "c6-c7-prolapse.html");
    ShortHasNoOccurrence("acute-lumbago.html", "numbness-fingers.html");
  }

  lemma IntendedKey4Unshadowed()
    ensures !Occurs("lumbago.html", "c5-c6-prolapse.html")
    ensures !Occurs("lumbago.html", "c6-c7-prolapse.html")
    ensures !Occurs("lumbago.html", "numbness-fingers.html")
    ensures !Occurs("lumbago.html", "acute-lumbago.html")
  {
    ShortHasNoOccurrence("lumbago.html", "c5-c6-prolapse.html");
    ShortHasNoOccurrence("lumbago.html", "c6-c7-prolapse.html");
    ShortHasNoOccurrence("lumbago.html", "numbness-fingers.html");
    ShortHasNoOccurrence("lumbago.html", "acute-lumbago.html");
  }

  lemma IntendedKey5Unshadowed()
    ensures !Occurs("/low-back/", "c5-c6-prolapse.html")
    ensures !Occurs("/low-back/", "c6-c7-prolapse.html")
    ensures !Occurs("/low-back/", "numbness-fingers.html")
    ensures !Occurs("/low-back/", "acute-lumbago.html")
    ensures !Occurs("/low-back/", "lumbago.html")
  {
    ShortHasNoOccurrence("/low-back/", "c5-c6-prolapse.html");
    ShortHasNoOccurrence("/low-back/", "c6-c7-prolapse.html");
    ShortHasNoOccurrence("/low-back/", "numbness-fingers.html");
    ShortHasNoOccurrence("/low-back/", "acute-lumbago.html");
    ShortHasNoOccurrence("/low-back/", "lumbago.html");
  }

  lemma IntendedKey6Misses0()
    ensures !Occurs("cervical-cervical-foraminal-stenosis.html", "c5-c6-prolapse.html")
  {
    MissingCharNoOccurrence("cervical-cervical-foraminal-stenosis.html", "c5-c6-prolapse.html", '5');
  }

  lemma IntendedKey6Misses1()
    ensures !Occurs("cervical-cervical-foraminal-stenosis.html", "c6-c7-prolapse.html")
  {
    MissingCharNoOccurrence("cervical-cervical-foraminal-stenosis.html", "c6-c7-prolapse.html", '6');
  }

  lemma IntendedKey6Misses2()
    ensures !Occurs("cervical-cervical-foraminal-stenosis.html", "numbness-fingers.html")
  {
    MissingCharNoOccurrence("cervical-cervical-foraminal-stenosis.html", "numbness-fingers.html", 'u');
  }

  lemma IntendedKey6Misses3()
    ensures !Occurs("cervical-cervical-foraminal-stenosis.html", "acute-lumbago.html")
  {
    MissingCharNoOccurrence("cervical-cervical-foraminal-stenosis.html", "acute-lumbago.html", 'u');
  }

  lemma IntendedKey6Misses4()
    ensures !Occurs("cervical-cervical-foraminal-stenosis.html", "lumbago.html")
  {
    MissingCharNoOccurrence("cervical-cervical-foraminal-stenosis.html", "lumbago.html", 'u');
  }

  lemma IntendedKey6Misses5()
    ensures !Occurs("cervical-cervical-foraminal-stenosis.html", "/low-back/")
  {
    MissingCharNoOccurrence("cervical-cervical-foraminal-stenosis.html", "/low-back/", '/');
  }

  lemma IntendedKey6Unshadowed()
    ensures !Occurs("cervical-cervical-foraminal-stenosis.html", "c5-c6-prolapse.html")
    ensures !Occurs("cervical-cervical-foraminal-stenosis.html", "c6-c7-prolapse.html")
    ensures !Occurs("cervical-cervical-foraminal-stenosis.html", "numbness-fingers.html")
    ensures !Occurs("cervical-cervical-foraminal-stenosis.html", "acute-lumbago.html")
    ensures !Occurs("cervical-cervical-foraminal-stenosis.html", "lumbago.html")
    ensures !Occurs("cervical-cervical-foraminal-stenosis.html", "/low-back/")
  {
    IntendedKey6Misses0();
    IntendedKey6Misses1();
    IntendedKey6Misses2();
    IntendedKey6Misses3();
    IntendedKey6Misses4();
    IntendedKey6Misses5();
  }

  lemma IntendedKey7Misses0()
    ensures !Occurs("\"cervical-disc-herniation.html\"", "c5-c6-prolapse.html")
  {
    MissingCharNoOccurrence("\"cervical-disc-herniation.html\"", "c5-c6-prolapse.html", '5');
  }

  lemma IntendedKey7Misses1()
    ensures !Occurs("\"cervical-disc-herniation.html\"", "c6-c7-prolapse.html")
  {
    MissingCharNoOccurrence("\"cervical-disc-herniation.html\"", "c6-c7-prolapse.html", '6');
  }

  lemma IntendedKey7Misses2()
    ensures !Occurs("\"cervical-disc-herniation.html\"", "numbness-fingers.html")
  {
    MissingCharNoOccurrence("\"cervical-disc-herniation.html\"", "numbness-fingers.html", 'u');
  }

  lemma IntendedKey7Misses3()
    ensures !Occurs("\"cervical-disc-herniation.html\"", "acute-lumbago.html")
  {
    MissingCharNoOccurrence("\"cervical-disc-herniation.html\"", "acute-lumbago.html", 'u');
  }

  lemma IntendedKey7Misses4()
    ensures !Occurs("\"cervical-disc-herniation.html\"", "lumbago.html")
  {
    MissingCharNoOccurrence("\"cervical-disc-herniation.html\"", "lumbago.html", 'u');
  }

  lemma IntendedKey7Misses5()
    ensures !Occurs("\"cervical-disc-herniation.html\"", "/low-back/")
  {
    MissingCharNoOccurrence("\"cervical-disc-herniation.html\"", "/low-back/", '/');
  }

  lemma IntendedKey7Unshadowed()
    ensures !Occurs("\"cervical-disc-herniation.html\"", "c5-c6-prolapse.html")
    ensures !Occurs("\"cervical-disc-herniation.html\"", "c6-c7-prolapse.html")
    ensures !Occurs("\"cervical-disc-herniation.html\"", "numbness-fingers.html")
    ensures !Occurs("\"cervical-disc-herniation.html\"", "acute-lumbago.html")
    ensures !Occurs("\"cervical-disc-herniation.html\"", "lumbago.html")
    ensures !Occurs("\"cervical-disc-herniation.html\"", "/low-back/")
    ensures !Occurs("\"cervical-disc-herniation.html\"", "cervical-cervical-foraminal-stenosis.html")
  {
    IntendedKey7Misses0();
    IntendedKey7Misses1();
    IntendedKey7Misses2();
    IntendedKey7Misses3();
    IntendedKey7Misses4();
    IntendedKey7Misses5();
    ShortHasNoOccurrence("\"cervical-disc-herniation.html\"", "cervical-cervical-foraminal-stenosis.html");
  }

  /**
   * As written, a link to `acute-lumbago.html` meets the rule of line 19
   * first, whose key it contains, and becomes `acute-acute-back-pain.html`;
   * the rule of line 20 never sees it.
   */
  lemma AcuteLumbagoDoubled()
    ensures Links("acute-lumbago.html") == "acute-acute-back-pain.html"
  {
    TablesWellFormed();
    var t := ApplyAll(LinkCorrections, "acute-lumbago.html");
    LumbagoKeyFiresFirst();
    QuotelessLinks("acute-lumbago.html", t);
  }

  /** When the literal pass leaves no quote, the regular-expression passes change nothing. */
  lemma QuotelessLinks(content: string, t: string)
    requires WellFormed(LinkCorrections) && ApplyAll(LinkCorrections, content) == t && '"' !in t
    ensures Links(content) == t
  {
    NoQuotes(t);
  }

  /** The literal pass: the key of line 19 fires inside the longer link. */
  lemma LumbagoKeyFiresFirst()
    ensures WellFormed(LinkCorrections)
    ensures ApplyAll(LinkCorrections, "acute-lumbago.html") == "acute-acute-back-pain.html"
  {
    var u := "acute-";
    var r, post := LumbagoRule, [AcuteLumbagoRule] + OtherTypos;
    LumbagoSplit();
    LumbagoLiterals();
    RenamedFilesMiss(u + r.bad);
    DoubledMissesLater();
    RuleFiresAfter(RenamedFiles, u, r, post);
  }

  lemma LumbagoSplit()
    ensures LinkCorrections == RenamedFiles + [LumbagoRule] + ([AcuteLumbagoRule] + OtherTypos)
  {
    SwapSplit(RenamedFiles, LumbagoRule, AcuteLumbagoRule, OtherTypos);
  }

  lemma SwapSplit(a: seq<Rule>, x: Rule, y: Rule, b: seq<Rule>)
    ensures a + [x, y] + b == a + [x] + ([y] + b)
  {
    assert [x, y] == [x] + [y];
  }

  lemma LumbagoLiterals()
    ensures "acute-" + LumbagoRule.bad == "acute-lumbago.html"
    ensures "acute-" + LumbagoRule.good == "acute-acute-back-pain.html"
    ensures LumbagoRule.bad[0] !in "acute-"
  {
    LumbagoRuleValue();
    AcuteKey();
    AcuteValue();
  }

  lemma LumbagoRuleValue()
    ensures LumbagoRule.bad == "lumbago.html" && LumbagoRule.good == "acute-back-pain.html"
  {
  }

  lemma AcuteKey()
    ensures "acute-" + "lumbago.html" == "acute-lumbago.html"
    ensures 'l' !in "acute-"
  {
  }

  lemma AcuteValue()
    ensures "acute-" + "acute-back-pain.html" == "acute-acute-back-pain.html"
  {
  }

  /** The file-name keys are longer than an `acute-lumbago.html` link. */
  lemma RenamedFilesMiss(s: string)
    requires |s| <= 18
    ensures forall i :: 0 <= i < |RenamedFiles| ==> !Occurs(s, RenamedFiles[i].bad)
  {
    ShortHasNoOccurrence(s, RenamedFiles[0].bad);
    ShortHasNoOccurrence(s, RenamedFiles[1].bad);
    ShortHasNoOccurrence(s, RenamedFiles[2].bad);
  }

  lemma DoubledMisses0()
    ensures !Occurs("acute-acute-back-pain.html", "acute-lumbago.html")
  {
    MissingCharNoOccurrence("acute-acute-back-pain.html", "acute-lumbago.html", 'g');
  }

  lemma DoubledMisses1()
    ensures !Occurs("acute-acute-back-pain.html", "/low-back/")
  {
    MissingCharNoOccurrence("acute-acute-back-pain.html", "/low-back/", 'w');
  }

  lemma DoubledMisses2()
    ensures !Occurs("acute-acute-back-pain.html", "cervical-cervical-foraminal-stenosis.html")
  {
    MissingCharNoOccurrence("acute-acute-back-pain.html", "cervical-cervical-foraminal-stenosis.html", 'v');
  }

  lemma DoubledMisses3()
    ensures !Occurs("acute-acute-back-pain.html", "\"cervical-disc-herniation.html\"")
  {
    MissingCharNoOccurrence("acute-acute-back-pain.html", "\"cervical-disc-herniation.html\"", '"');
  }

  lemma DoubledMissesLater()
    ensures forall i :: 0 <= i < 4 ==> !Occurs("acute-acute-back-pain.html", ([AcuteLumbagoRule] + OtherTypos)[i].bad)
  {
    DoubledMisses0();
    DoubledMisses1();
    DoubledMisses2();
    DoubledMisses3();
  }

  /** A text without quotes passes both regular-expression passes unchanged. */
  lemma NoQuotes(t: string)
    requires '"' !in t
    ensures Sub(Sub(t, CervicalPattern, NeckFile), NeckPattern, NeckFile) == t
  {
    NoQuoteNoMatch(t, CervicalPattern);
    SubNoMatches(t, CervicalPattern, NeckFile);
    NoQuoteNoMatch(t, NeckPattern);
    SubNoMatches(t, NeckPattern, NeckFile);
  }

  /** With lines 19 and 20 swapped, the link becomes `acute-back-pain.html`. */
  lemma IntendedRepairsAcute()
    ensures LinksWith(IntendedCorrections, "acute-lumbago.html") == "acute-back-pain.html"
  {
    TablesWellFormed();
    var r, post := AcuteLumbagoRule, [LumbagoRule] + OtherTypos;
    SwapSplit(RenamedFiles, r, LumbagoRule, OtherTypos);
    RenamedFilesMiss(r.bad);
    RepairedMissesLater();
    RuleFires(RenamedFiles, r, post);
    NoQuotes(r.good);
  }

  lemma RepairedMisses0()
    ensures !Occurs("acute-back-pain.html", "lumbago.html")
  {
    MissingCharNoOccurrence("acute-back-pain.html", "lumbago.html", 'g');
  }

  lemma RepairedMisses1()
    ensures !Occurs("acute-back-pain.html", "/low-back/")
  {
    MissingCharNoOccurrence("acute-back-pain.html", "/low-back/", 'w');
  }

  lemma RepairedMisses2()
    ensures !Occurs("acute-back-pain.html", "cervical-cervical-foraminal-stenosis.html")
  {
    MissingCharNoOccurrence("acute-back-pain.html", "cervical-cervical-foraminal-stenosis.html", 'v');
  }

  lemma RepairedMisses3()
    ensures !Occurs("acute-back-pain.html", "\"cervical-disc-herniation.html\"")
  {
    MissingCharNoOccurrence("acute-back-pain.html", "\"cervical-disc-herniation.html\"", '"');
  }

  lemma RepairedMissesLater()
    ensures forall i :: 0 <= i < 4 ==> !Occurs("acute-back-pain.html", ([LumbagoRule] + OtherTypos)[i].bad)
  {
    RepairedMisses0();
    RepairedMisses1();
    RepairedMisses2();
    RepairedMisses3();
  }
}
