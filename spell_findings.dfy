/**
 * Three places where the spellchecker does not do what its table
 * evidently means, each shown on a concrete text, next to the corrected
 * behaviour.
 */
module SpellFindings {
  import opened Chars
  import opened Strings
  import opened WordMatch
  import opened SpellPatterns
  import opened Spellcheck
  import opened SpellFix

  // ---------------------------------------------------------------------
  // Overlapping records: "svaert." loses its full stop
  // ---------------------------------------------------------------------

  /** A word bounded on both sides at the start of `s` matches `\bw\b` there. */
  lemma WholeWordSpans(s: string, w: string, ic: bool)
    requires LitAt(s, 0, w, ic) && AtBoundary(s, 0) && AtBoundary(s, |w|)
    ensures Spans(s, 0, [Boundary, Lit(w), Boundary], |w|, ic)
  {
    var n := |w|;
    assert Spans(s, n, [], n, ic);
    SpansCons(s, n, Boundary, n, [], n, ic);
    assert [Boundary] + [] == [Boundary];
    SpansCons(s, 0, Lit(w), n, [Boundary], n, ic);
    assert [Lit(w)] + [Boundary] == [Lit(w), Boundary];
    SpansCons(s, 0, Boundary, 0, [Lit(w), Boundary], n, ic);
    assert [Boundary] + [Lit(w), Boundary] == [Boundary, Lit(w), Boundary];
  }

  /** Both spellings of "svaert" match the whole word of "svaert." when case is ignored. */
  lemma SvaertSpans(ic: bool)
    requires ic
    ensures Spans("svaert.", 0, SvaertUpper.pattern, 6, ic)
    ensures Spans("svaert.", 0, SvaertLower.pattern, 6, ic)
  {
    var s := "svaert.";
    assert AtBoundary(s, 0) && AtBoundary(s, 6);
    assert LitAt(s, 0, "Svaert", ic) by {
      assert ToLower('S') == 's';
    }
    assert LitAt(s, 0, "svaert", ic);
    WholeWordSpans(s, "Svaert", ic);
    WholeWordSpans(s, "svaert", ic);
  }

  /** The record of entry `e` for s[0..6] of "svaert.". */
  function SvaertIssue(file: string, e: Pattern): (r: Issue)
    ensures r.found == "svaert" && r.start == 0 && r.end == 6 && r.replacement == e.replacement
  {
    assert "svaert."[0..6] == "svaert";
    MakeIssue(file, "svaert.", e, Span(0, 6))
  }

  /** The table lists the two spellings one after the other. */
  lemma SvaertInTable()
    ensures Part04[10] == SvaertUpper && Part04[11] == SvaertLower
  {
  }

  /**
   * A table holding both spellings (the spellchecker's holds them at
   * lines 103 and 104) reports two different records for the same span
   * of "svaert.".
   */
  lemma SvaertReportedTwice(file: string, entries: seq<Pattern>, n: nat, m: nat)
    requires n < |entries| && entries[n] == SvaertUpper
    requires m < |entries| && entries[m] == SvaertLower
    ensures SvaertIssue(file, SvaertUpper) in Issues(file, "svaert.", entries)
    ensures SvaertIssue(file, SvaertLower) in Issues(file, "svaert.", entries)
    ensures SvaertIssue(file, SvaertUpper) != SvaertIssue(file, SvaertLower)
    ensures !Apart(SvaertIssue(file, SvaertUpper), SvaertIssue(file, SvaertLower))
  {
    SvaertReported(file, entries, n);
    SvaertReported(file, entries, m);
  }

  lemma SvaertReported(file: string, entries: seq<Pattern>, n: nat)
    requires n < |entries| && (entries[n] == SvaertUpper || entries[n] == SvaertLower)
    ensures SvaertIssue(file, entries[n]) in Issues(file, "svaert.", entries)
  {
    var e := entries[n];
    SvaertSpans(CaseFlag(e));
    LeftmostReported("svaert.", e.pattern, CaseFlag(e), 0, 6);
    IssueOfMatch(file, "svaert.", entries, n, Span(0, 6));
  }

  /**
   * Repairing both records, the second splice cuts at the first one's old
   * end, which now lies past the end of the text: the full stop is lost
   * (and the upper-case rule has written "Svært" first).
   */
  lemma SvaertLosesFullStop(file: string)
    ensures AllAdaptable([SvaertIssue(file, SvaertUpper), SvaertIssue(file, SvaertLower)])
    ensures FixedText("svaert.", [SvaertIssue(file, SvaertUpper), SvaertIssue(file, SvaertLower)]) == "svært"
  {
    var iu, il := SvaertIssue(file, SvaertUpper), SvaertIssue(file, SvaertLower);
    SvaertPairSorted(file);
    SvaertFixSteps(file);
    ApplyPair("svaert.", iu, il);
  }

  /** Applying two records in order repairs the first and then the second. */
  lemma ApplyPair(s: string, a: Issue, b: Issue)
    requires IssueAdaptable(a) && IssueAdaptable(b)
    ensures AllAdaptable([a, b]) && ApplyInOrder(s, [a, b]) == Fix(Fix(s, a), b)
  {
    assert [a, b][1..] == [b] && [b][1..] == [];
    assert ApplyInOrder(s, [a, b]) == ApplyInOrder(Fix(s, a), [b]);
    assert ApplyInOrder(Fix(s, a), [b]) == ApplyInOrder(Fix(Fix(s, a), b), []);
  }

  /** Both records start at 0, so the stable sort keeps them in table order. */
  lemma SvaertPairSorted(file: string)
    ensures Sorting.SortBy([SvaertIssue(file, SvaertUpper), SvaertIssue(file, SvaertLower)], ByStartDesc)
      == [SvaertIssue(file, SvaertUpper), SvaertIssue(file, SvaertLower)]
  {
    var iu, il := SvaertIssue(file, SvaertUpper), SvaertIssue(file, SvaertLower);
    assert [il][1..] == [] && [iu, il][1..] == [il];
    assert Sorting.SortBy([il], ByStartDesc) == [il];
    assert Sorting.Insert(iu, [il], ByStartDesc) == [iu, il];
  }

  /** The upper-case record turns "svaert." into "Svært."; the lower-case one then replaces "Svært" with "svært" and the full stop. */
  lemma SvaertFixSteps(file: string)
    ensures IssueAdaptable(SvaertIssue(file, SvaertUpper)) && IssueAdaptable(SvaertIssue(file, SvaertLower))
    ensures Fix("svaert.", SvaertIssue(file, SvaertUpper)) == "Svært."
    ensures Fix("Svært.", SvaertIssue(file, SvaertLower)) == "svært"
  {
    var iu, il := SvaertIssue(file, SvaertUpper), SvaertIssue(file, SvaertLower);
    SvaertNotUpper();
    assert Adapt(iu.found, iu.replacement) == "Svært";
    assert Adapt(il.found, il.replacement) == "svært";
  }

  /** "svaert" is not all upper case and does not begin with an upper-case letter. */
  lemma SvaertNotUpper()
    ensures !IsUpperString("svaert") && !IsUpper("svaert"[0])
  {
    assert IsLower("svaert"[0]);
  }

  /** Keeping only the first of the overlapping records keeps the full stop. */
  lemma SvaertKeepFirst(file: string)
    ensures var kept := KeepFirst([SvaertIssue(file, SvaertUpper), SvaertIssue(file, SvaertLower)]);
      && kept == [SvaertIssue(file, SvaertUpper)]
      && AllAdaptable(kept)
      && FixedText("svaert.", kept) == "Svært."
  {
    var iu, il := SvaertIssue(file, SvaertUpper), SvaertIssue(file, SvaertLower);
    SvaertNotUpper();
    assert [iu, il][..1] == [iu] && [iu][..0] == [];
    assert KeepFirst([iu]) == [iu];
    assert !Apart(il, iu);
    assert KeepFirst([iu, il]) == [iu];
    assert Adapt(iu.found, iu.replacement) == "Svært";
    assert Sorting.SortBy([iu], ByStartDesc) == [iu];
    assert Fix("svaert.", iu) == "Svært.";
    assert [iu][1..] == [];
    assert ApplyInOrder("svaert.", [iu]) == ApplyInOrder("Svært.", []);
  }

  // ---------------------------------------------------------------------
  // A group reference written literally: "5 ar" becomes "\1 år"
  // ---------------------------------------------------------------------

  /** The years rule matches the whole of "5 ar". */
  lemma YearsSpans(ic: bool)
    ensures Spans("5 ar", 0, YearsAfterNumber.pattern, 4, ic)
  {
    var s := "5 ar";
    assert SameChar(s[2 + 0], "ar"[0], ic) && SameChar(s[2 + 1], "ar"[1], ic);
    assert TokenSpans(s, 4, Boundary, 4, ic) && TokenSpans(s, 2, Lit("ar"), 4, ic);
    assert TokenSpans(s, 1, Run(Space), 2, ic) && TokenSpans(s, 0, Run(Digit), 1, ic);
    assert Spans(s, 4, [], 4, ic);
    SpansCons(s, 4, Boundary, 4, [], 4, ic);
    assert [Boundary] + [] == [Boundary];
    SpansCons(s, 2, Lit("ar"), 4, [Boundary], 4, ic);
    assert [Lit("ar")] + [Boundary] == [Lit("ar"), Boundary];
    SpansCons(s, 1, Run(Space), 2, [Lit("ar"), Boundary], 4, ic);
    assert [Run(Space)] + [Lit("ar"), Boundary] == [Run(Space), Lit("ar"), Boundary];
    SpansCons(s, 0, Run(Digit), 1, [Run(Space), Lit("ar"), Boundary], 4, ic);
    assert YearsAfterNumber.pattern == [Run(Digit)] + [Run(Space), Lit("ar"), Boundary];
  }

  /** The record of the years rule for "5 ar". */
  function YearsIssue(file: string): (r: Issue)
    ensures r.found == "5 ar" && r.start == 0 && r.end == 4 && r.replacement == "\\1 år"
  {
    assert "5 ar"[0..4] == "5 ar";
    MakeIssue(file, "5 ar", YearsAfterNumber, Span(0, 4))
  }

  /** The text has no upper-case letter, so the replacement is used as written. */
  lemma YearsNotUpper()
    ensures !IsUpperString("5 ar") && !IsUpper("5 ar"[0])
  {
    assert IsLower("5 ar"[2]);
  }

  /** The table lists the years rule. */
  lemma YearsInTable()
    ensures Part10[15] == YearsAfterNumber
  {
  }

  /** A table holding the years rule reports the record for "5 ar". */
  lemma YearsReported(file: string, entries: seq<Pattern>, n: nat)
    requires n < |entries| && entries[n] == YearsAfterNumber
    ensures YearsIssue(file) in Issues(file, "5 ar", entries)
  {
    var e := entries[n];
    YearsSpans(CaseFlag(e));
    LeftmostReported("5 ar", e.pattern, CaseFlag(e), 0, 4);
    IssueOfMatch(file, "5 ar", entries, n, Span(0, 4));
  }

  /** Repairing the record writes a backslash and "1" where the number was. */
  lemma YearsLosesNumber(file: string)
    ensures IssueAdaptable(YearsIssue(file))
    ensures FixedText("5 ar", [YearsIssue(file)]) == "\\1 år"
  {
    var i := YearsIssue(file);
    YearsNotUpper();
    assert Adapt(i.found, i.replacement) == "\\1 år";
    assert Sorting.SortBy([i], ByStartDesc) == [i];
    assert Fix("5 ar", i) == "\\1 år";
    assert [i][1..] == [];
    assert ApplyInOrder("5 ar", [i]) == ApplyInOrder(Fix("5 ar", i), []);
  }

  /** The number a match begins with: group 1 of the patterns that have a group. */
  function LeadingNumber(found: string): (g: string)
    ensures |g| <= |found| && g == found[..|g|]
    ensures forall k :: 0 <= k < |g| ==> IsDigit(g[k])
    ensures |g| < |found| ==> !IsDigit(found[|g|])
  {
    found[..RunLength(found, 0, Digit)]
  }

  /** `match.expand(replacement)`: the group reference `\1` replaced by the number the match begins with. */
  function ExpandGroup(found: string, repl: string): string
  {
    ReplaceAll(repl, "\\1", LeadingNumber(found))
  }

  /** A replacement without a group reference is unchanged. */
  lemma ExpandGroupPlain(found: string, repl: string)
    requires !Occurs(repl, "\\1")
    ensures ExpandGroup(found, repl) == repl
  {
    ReplaceAbsent(repl, "\\1", LeadingNumber(found));
  }

  /**
   * A replacement that begins with the group reference starts with the
   * number the match began with, followed by the rest of the replacement.
   */
  lemma ExpandGroupKeepsNumber(digits: string, rest: string, t: string)
    requires digits != [] && forall k :: 0 <= k < |digits| ==> IsDigit(digits[k])
    requires rest == [] || !IsDigit(rest[0])
    requires !Occurs(t, "\\1")
    ensures ExpandGroup(digits + rest, "\\1" + t) == digits + t
  {
    var found := digits + rest;
    assert forall k :: 0 <= k < |digits| ==> found[k] == digits[k];
    RunLengthExact(found, 0, |digits|, Digit);
    var g := LeadingNumber(found);
    assert g == digits;
    var s := "\\1" + t;
    assert s[..2] == "\\1" && s[2..] == t;
    ReplaceAbsent(t, "\\1", g);
  }

  /** With the group expanded, "5 ar" becomes "5 år". */
  lemma YearsKeepsNumber()
    ensures ExpandGroup("5 ar", "\\1 år") == "5 år"
  {
    assert " år"[..] == " år";
    var t := " år";
    assert !Occurs(t, "\\1") by {
      MissingCharNoOccurrence(t, "\\1", '\\');
    }
    assert "5 ar" == "5" + " ar";
    assert "\\1 år" == "\\1" + t;
    ExpandGroupKeepsNumber("5", " ar", t);
  }

  // ---------------------------------------------------------------------
  // The case flag: every rule ignores case
  // ---------------------------------------------------------------------

  /**
   * As written, the upper-case rule's flag ignores case, so it matches the
   * lower-case word and its repair writes "Svært" over "svaert".
   */
  lemma SvaertUpperIgnoresCase(file: string)
    ensures CaseFlag(SvaertUpper)
    ensures Spans("svaert.", 0, SvaertUpper.pattern, 6, CaseFlag(SvaertUpper))
    ensures IssueAdaptable(SvaertIssue(file, SvaertUpper))
    ensures Fix("svaert.", SvaertIssue(file, SvaertUpper)) == "Svært."
  {
    SvaertSpans(true);
    SvaertNotUpper();
  }

  /**
   * The flag as the table's upper- and lower-case pairs need it: a pattern
   * whose first word letter (after a leading `\b`) is upper case is
   * matched with case, every other one without.
   */
  predicate IntendedCaseFlag(e: Pattern)
  {
    var src := Source(e.pattern);
    var lead := if |src| >= 3 && src[..2] == "\\b" then src[2] else src[0];
    !IsUpper(lead)
  }

  /** The source text of a whole-word pattern `\bw\b`. */
  lemma WholeWordSource(w: string)
    ensures Source([Boundary, Lit(w), Boundary]) == "\\b" + w + "\\b"
  {
    var p := [Boundary, Lit(w), Boundary];
    assert p[1..] == [Lit(w), Boundary] && p[1..][1..] == [Boundary] && p[1..][1..][1..] == [];
    assert Source([Boundary]) == "\\b";
    assert Source([Lit(w), Boundary]) == w + "\\b";
  }

  /** The intended flag keeps case for the upper-case rule and ignores it for the lower-case one. */
  lemma IntendedFlagOfSvaert()
    ensures !IntendedCaseFlag(SvaertUpper) && IntendedCaseFlag(SvaertLower)
  {
    WholeWordSource("Svaert");
    WholeWordSource("svaert");
    assert SvaertUpper.pattern == [Boundary, Lit("Svaert"), Boundary];
    assert SvaertLower.pattern == [Boundary, Lit("svaert"), Boundary];
  }

  /** Keeping case, `\bSvaert\b` matches no span of "svaert." from 0. */
  lemma SvaertUpperKeepsCase(e: nat)
    ensures !Spans("svaert.", 0, SvaertUpper.pattern, e, false)
  {
    var s := "svaert.";
    assert !LitAt(s, 0, "Svaert", false) by {
      assert !SameChar(s[0 + 0], "Svaert"[0], false);
    }
    assert forall j: nat :: !Spans(s, j, [Lit("Svaert"), Boundary], e, false) || j != 0;
    assert forall j: nat :: TokenSpans(s, 0, Boundary, j, false) ==> j == 0;
    assert SvaertUpper.pattern[0] == Boundary && SvaertUpper.pattern[1..] == [Lit("Svaert"), Boundary];
  }

  /** With the intended flag the upper-case rule no longer matches "svaert", and the lower-case one still does. */
  lemma IntendedFlagSeparatesCase(e: nat)
    ensures !IntendedCaseFlag(SvaertUpper) && IntendedCaseFlag(SvaertLower)
    ensures !Spans("svaert.", 0, SvaertUpper.pattern, e, IntendedCaseFlag(SvaertUpper))
    ensures Spans("svaert.", 0, SvaertLower.pattern, 6, IntendedCaseFlag(SvaertLower))
  {
    IntendedFlagOfSvaert();
    SvaertUpperKeepsCase(e);
    SvaertSpans(true);
  }

  /** Keeping case, `\bSvaert\b` matches no span of "svaert." at all. */
  lemma SvaertUpperNowhere(i: nat, e: nat)
    ensures !Spans("svaert.", i, SvaertUpper.pattern, e, false)
  {
    var s := "svaert.";
    forall j: nat
      ensures !LitAt(s, j, "Svaert", false)
    {
      if j + 6 <= |s| {
        assert !SameChar(s[j + 0], "Svaert"[0], false);
      }
    }
    assert forall j: nat, k: nat :: !TokenSpans(s, j, Lit("Svaert"), k, false);
    assert [Lit("Svaert"), Boundary][0] == Lit("Svaert");
    assert forall j: nat :: !Spans(s, j, [Lit("Svaert"), Boundary], e, false);
    assert SvaertUpper.pattern[0] == Boundary && SvaertUpper.pattern[1..] == [Lit("Svaert"), Boundary];
  }

  /**
   * With both corrections, the intended case flag and overlapping records
   * dropped, the upper-case rule reports nothing in "svaert.", the
   * lower-case rule reports the word, and repairing that one record gives
   * "svært." with its case and its full stop kept.
   */
  lemma SvaertBothCorrected(file: string)
    ensures MatchesOf("svaert.", SvaertUpper.pattern, IntendedCaseFlag(SvaertUpper)) == []
    ensures Span(0, 6) in MatchesOf("svaert.", SvaertLower.pattern, IntendedCaseFlag(SvaertLower))
    ensures var kept := KeepFirst([SvaertIssue(file, SvaertLower)]);
      && kept == [SvaertIssue(file, SvaertLower)]
      && AllAdaptable(kept)
      && FixedText("svaert.", kept) == "svært."
  {
    var s := "svaert.";
    IntendedFlagOfSvaert();
    var ms := MatchesOf(s, SvaertUpper.pattern, false);
    MatchesOfSound(s, SvaertUpper.pattern, false);
    if ms != [] {
      SvaertUpperNowhere(ms[0].start, ms[0].end);
    }
    SvaertSpans(true);
    LeftmostReported(s, SvaertLower.pattern, true, 0, 6);
    var il := SvaertIssue(file, SvaertLower);
    SvaertNotUpper();
    assert [il][..0] == [] && [il][1..] == [];
    assert KeepFirst([il]) == [il];
    assert Adapt(il.found, il.replacement) == "svært";
    assert Sorting.SortBy([il], ByStartDesc) == [il];
    assert Fix(s, il) == "svært.";
    assert ApplyInOrder(s, [il]) == ApplyInOrder("svært.", []);
  }
}
