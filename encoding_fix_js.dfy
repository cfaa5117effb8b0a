/**
 * website/scripts/fix-encoding.js: repairs class names, URLs, attribute
 * names and a few words in which `a` was corrupted to `å` (or `ø`), with
 * the `fixes` array of lines 10-42 run by the shared split/join loop.
 */
module EncodingFixJs {
  import opened Strings
  import opened Rewrite
  import SplitJoinFix

  /** Lines 12-17. */
  const Lines12To17: seq<Rule> := [
    Rule("hub-sidebør", "hub-sidebar"),
    Rule("sidebør-", "sidebar-"),
    Rule("hub-primåry", "hub-primary"),
    Rule("hub-dørk", "hub-dark"),
    Rule("btn-primåry", "btn-primary"),
    Rule("hub-årticle", "hub-article")
  ]

  /** Lines 18-22. */
  const Lines18To22: seq<Rule> := [
    Rule("årticle", "article"),
    Rule("conversion-cård", "conversion-card"),
    Rule("toc-cård", "toc-card"),
    Rule("condition-cård", "condition-card"),
    Rule("-cård", "-card")
  ]

  /** Line 23. */
  const Line23: seq<Rule> := [
    Rule("Cård", "Card")
  ]

  /** Lines 24-33. */
  const Lines24To33: seq<Rule> := [
    Rule("cård", "card"),
    Rule("onlineboåking", "onlinebooking"),
    Rule("boåk-available", "book-available"),
    Rule("chårset", "charset"),
    Rule("åria-", "aria-"),
    Rule("Transpårent", "Transparent")
  ]

  /** Lines 34-36. */
  const Lines34To36: seq<Rule> := [
    Rule("border-rådius", "border-radius"),
    Rule("mårgin", "margin"),
    Rule("vår(--", "var(--")
  ]

  /** Lines 37-41. */
  const Lines37To41: seq<Rule> := [
    Rule("scroll-mårgin", "scroll-margin"),
    Rule("Januår", "Januar"),
    Rule("årsaker", "Årsaker")
  ]

  /** The rules of the array from line 34 on, line 24 on, line 23 on and line 18 on. */
  const FromLine34: seq<Rule> := Lines34To36 + Lines37To41
  const FromLine24: seq<Rule> := Lines24To33 + FromLine34
  const FromLine23: seq<Rule> := Line23 + FromLine24
  const FromLine18: seq<Rule> := Lines18To22 + FromLine23

  /** The `fixes` array in order. */
  const Fixes: seq<Rule> := Lines12To17 + FromLine18

  /** Every bad string carries one of the corrupted letters å and ø. */
  predicate Corrupted(bad: string)
  {
    'å' in bad || 'ø' in bad
  }

  /**
   * A good string contains neither corrupted letter: all its characters
   * are ASCII or Å, which sort below both.
   */
  predicate Repaired(good: string)
  {
    forall k :: 0 <= k < |good| ==> good[k] <= 'Å'
  }

  predicate AllCorrupted(rules: seq<Rule>)
  {
    forall i :: 0 <= i < |rules| ==> Corrupted(rules[i].bad)
  }

  predicate AllRepaired(rules: seq<Rule>)
  {
    forall i :: 0 <= i < |rules| ==> Repaired(rules[i].good)
  }

  lemma EntriesConcat(a: seq<Rule>, b: seq<Rule>)
    requires AllCorrupted(a) && AllCorrupted(b) && AllRepaired(a) && AllRepaired(b)
    ensures AllCorrupted(a + b) && AllRepaired(a + b)
  {
    forall i | 0 <= i < |a + b|
      ensures Corrupted((a + b)[i].bad) && Repaired((a + b)[i].good)
    {
      if i < |a| {
        assert (a + b)[i] == a[i];
      } else {
        assert (a + b)[i] == b[i - |a|];
      }
    }
  }

  lemma CorruptedNonEmpty(rules: seq<Rule>)
    requires AllCorrupted(rules)
    ensures WellFormed(rules)
  {
    forall i | 0 <= i < |rules|
      ensures rules[i].bad != []
    {
      assert Corrupted(rules[i].bad);
    }
  }

  lemma Lines12To17Corrupted()
    ensures AllCorrupted(Lines12To17)
  {
  }

  lemma Lines12To17Repaired()
    ensures AllRepaired(Lines12To17)
  {
    assert Repaired(Lines12To17[0].good);
    assert Repaired(Lines12To17[1].good);
    assert Repaired(Lines12To17[2].good);
    assert Repaired(Lines12To17[3].good);
    assert Repaired(Lines12To17[4].good);
    assert Repaired(Lines12To17[5].good);
  }

  lemma Lines18To22Corrupted()
    ensures AllCorrupted(Lines18To22)
  {
  }

  lemma Lines18To22Repaired()
    ensures AllRepaired(Lines18To22)
  {
    assert Repaired(Lines18To22[0].good);
    assert Repaired(Lines18To22[1].good);
    assert Repaired(Lines18To22[2].good);
    assert Repaired(Lines18To22[3].good);
    assert Repaired(Lines18To22[4].good);
  }

  lemma Line23Corrupted()
    ensures AllCorrupted(Line23)
  {
  }

  lemma Line23Repaired()
    ensures AllRepaired(Line23)
  {
    assert Repaired(Line23[0].good);
  }

  lemma Lines24To33Corrupted()
    ensures AllCorrupted(Lines24To33)
  {
  }

  lemma Lines24To33Repaired()
    ensures AllRepaired(Lines24To33)
  {
    assert Repaired(Lines24To33[0].good);
    assert Repaired(Lines24To33[1].good);
    assert Repaired(Lines24To33[2].good);
    assert Repaired(Lines24To33[3].good);
    assert Repaired(Lines24To33[4].good);
    assert Repaired(Lines24To33[5].good);
  }

  lemma Lines34To36Corrupted()
    ensures AllCorrupted(Lines34To36)
  {
  }

  lemma Lines34To36Repaired()
    ensures AllRepaired(Lines34To36)
  {
    assert Repaired(Lines34To36[0].good);
    assert Repaired(Lines34To36[1].good);
    assert Repaired(Lines34To36[2].good);
  }

  lemma Lines37To41Corrupted()
    ensures AllCorrupted(Lines37To41)
  {
  }

  lemma Lines37To41Repaired()
    ensures AllRepaired(Lines37To41)
  {
    assert Repaired(Lines37To41[0].good);
    assert Repaired(Lines37To41[1].good);
    assert Repaired(Lines37To41[2].good);
  }

  /** Every entry's bad string is corrupted and its good string is not. */
  lemma FixesEntries()
    ensures AllCorrupted(Fixes) && AllRepaired(Fixes)
    ensures AllCorrupted(FromLine18) && AllCorrupted(FromLine23) && AllCorrupted(FromLine24)
    ensures WellFormed(Fixes)
  {
    Lines12To17Corrupted();
    Lines12To17Repaired();
    Lines18To22Corrupted();
    Lines18To22Repaired();
    Line23Corrupted();
    Line23Repaired();
    Lines24To33Corrupted();
    Lines24To33Repaired();
    Lines34To36Corrupted();
    Lines34To36Repaired();
    Lines37To41Corrupted();
    Lines37To41Repaired();
    EntriesConcat(Lines34To36, Lines37To41);
    EntriesConcat(Lines24To33, FromLine34);
    EntriesConcat(Line23, FromLine24);
    EntriesConcat(Lines18To22, FromLine23);
    EntriesConcat(Lines12To17, FromLine18);
    CorruptedNonEmpty(Fixes);
  }

  /** The text `fixFile` would write for `content`, if it differs. */
  function Fixed(content: string): string
  {
    FixesEntries();
    ApplyAll(Fixes, content)
  }

  /** `fixFile` (lines 44-58): the repaired text, and whether it is written. */
  method FixFile(content: string) returns (result: string, written: bool)
    ensures result == Fixed(content)
    ensures written <==> result != content
  {
    FixesEntries();
    result, written := SplitJoinFix.RunFixes(Fixes, content);
  }

  /** Text without å and ø contains no bad string: it is returned as it is. */
  lemma CleanTextUntouched(content: string)
    requires 'å' !in content && 'ø' !in content
    ensures Fixed(content) == content
  {
    FixesEntries();
    forall i | 0 <= i < |Fixes|
      ensures !Occurs(content, Fixes[i].bad)
    {
      assert Corrupted(Fixes[i].bad);
      if 'å' in Fixes[i].bad {
        MissingCharNoOccurrence(content, Fixes[i].bad, 'å');
      } else {
        MissingCharNoOccurrence(content, Fixes[i].bad, 'ø');
      }
    }
    ApplyAllNoneOccurs(Fixes, content);
  }

  /** A repaired string contains no bad string of the array. */
  lemma RepairedMissesAll(good: string, rules: seq<Rule>)
    requires Repaired(good) && AllCorrupted(rules)
    ensures forall i :: 0 <= i < |rules| ==> !Occurs(good, rules[i].bad)
  {
    forall i | 0 <= i < |rules|
      ensures !Occurs(good, rules[i].bad)
    {
      assert Corrupted(rules[i].bad);
      if 'å' in rules[i].bad {
        assert 'å' !in good;
        MissingCharNoOccurrence(good, rules[i].bad, 'å');
      } else {
        assert 'ø' !in good;
        MissingCharNoOccurrence(good, rules[i].bad, 'ø');
      }
    }
  }

  // Each good string that runs after the rule for a pattern cannot overlap
  // it; one lemma per pair, named after the pattern and the line of the rule.

  lemma ArticleAvoids18()
    ensures NotAligned("årticle", "article")
  {
    QuickNotAlignedSound("årticle", "article");
  }

  lemma ArticleAvoids19()
    ensures NotAligned("årticle", "conversion-card")
  {
    QuickNotAlignedSound("årticle", "conversion-card");
  }

  lemma ArticleAvoids20()
    ensures NotAligned("årticle", "toc-card")
  {
    QuickNotAlignedSound("årticle", "toc-card");
  }

  lemma ArticleAvoids21()
    ensures NotAligned("årticle", "condition-card")
  {
    QuickNotAlignedSound("årticle", "condition-card");
  }

  lemma ArticleAvoids22()
    ensures NotAligned("årticle", "-card")
  {
    QuickNotAlignedSound("årticle", "-card");
  }

  lemma Lines18To22AvoidArticle()
    ensures Avoids("årticle", Lines18To22)
  {
    ArticleAvoids18(); ArticleAvoids19(); ArticleAvoids20(); ArticleAvoids21(); ArticleAvoids22();
  }

  lemma ArticleAvoids23()
    ensures NotAligned("årticle", "Card")
  {
    QuickNotAlignedSound("årticle", "Card");
  }

  lemma Line23AvoidArticle()
    ensures Avoids("årticle", Line23)
  {
    ArticleAvoids23();
  }

  lemma ArticleAvoids24()
    ensures NotAligned("årticle", "card")
  {
    QuickNotAlignedSound("årticle", "card");
  }

  lemma ArticleAvoids27()
    ensures NotAligned("årticle", "onlinebooking")
  {
    QuickNotAlignedSound("årticle", "onlinebooking");
  }

  lemma ArticleAvoids28()
    ensures NotAligned("årticle", "book-available")
  {
    QuickNotAlignedSound("årticle", "book-available");
  }

  lemma ArticleAvoids31()
    ensures NotAligned("årticle", "charset")
  {
    QuickNotAlignedSound("årticle", "charset");
  }

  lemma ArticleAvoids32()
    ensures NotAligned("årticle", "aria-")
  {
    QuickNotAlignedSound("årticle", "aria-");
  }

  lemma ArticleAvoids33()
    ensures NotAligned("årticle", "Transparent")
  {
    QuickNotAlignedSound("årticle", "Transparent");
  }

  lemma Lines24To33AvoidArticle()
    ensures Avoids("årticle", Lines24To33)
  {
    ArticleAvoids24(); ArticleAvoids27(); ArticleAvoids28(); ArticleAvoids31(); ArticleAvoids32(); ArticleAvoids33();
  }

  lemma ArticleAvoids34()
    ensures NotAligned("årticle", "border-radius")
  {
    QuickNotAlignedSound("årticle", "border-radius");
  }

  lemma ArticleAvoids35()
    ensures NotAligned("årticle", "margin")
  {
    QuickNotAlignedSound("årticle", "margin");
  }

  lemma ArticleAvoids36()
    ensures NotAligned("årticle", "var(--")
  {
    QuickNotAlignedSound("årticle", "var(--");
  }

  lemma ArticleAvoids37()
    ensures NotAligned("årticle", "scroll-margin")
  {
    QuickNotAlignedSound("årticle", "scroll-margin");
  }

  lemma ArticleAvoids40()
    ensures NotAligned("årticle", "Januar")
  {
    QuickNotAlignedSound("årticle", "Januar");
  }

  lemma ArticleAvoids41()
    ensures NotAligned("årticle", "Årsaker")
  {
    QuickNotAlignedSound("årticle", "Årsaker");
  }

  lemma Lines34To36AvoidArticle()
    ensures Avoids("årticle", Lines34To36)
  {
    ArticleAvoids34(); ArticleAvoids35(); ArticleAvoids36();
  }

  lemma Lines37To41AvoidArticle()
    ensures Avoids("årticle", Lines37To41)
  {
    ArticleAvoids37(); ArticleAvoids40(); ArticleAvoids41();
  }

  lemma CapitalCardAvoids23()
    ensures NotAligned("Cård", "Card")
  {
    QuickNotAlignedSound("Cård", "Card");
  }

  lemma Line23AvoidCapitalCard()
    ensures Avoids("Cård", Line23)
  {
    CapitalCardAvoids23();
  }

  lemma CapitalCardAvoids24()
    ensures NotAligned("Cård", "card")
  {
    QuickNotAlignedSound("Cård", "card");
  }

  lemma CapitalCardAvoids27()
    ensures NotAligned("Cård", "onlinebooking")
  {
    QuickNotAlignedSound("Cård", "onlinebooking");
  }

  lemma CapitalCardAvoids28()
    ensures NotAligned("Cård", "book-available")
  {
    QuickNotAlignedSound("Cård", "book-available");
  }

  lemma CapitalCardAvoids31()
    ensures NotAligned("Cård", "charset")
  {
    QuickNotAlignedSound("Cård", "charset");
  }

  lemma CapitalCardAvoids32()
    ensures NotAligned("Cård", "aria-")
  {
    QuickNotAlignedSound("Cård", "aria-");
  }

  lemma CapitalCardAvoids33()
    ensures NotAligned("Cård", "Transparent")
  {
    QuickNotAlignedSound("Cård", "Transparent");
  }

  lemma Lines24To33AvoidCapitalCard()
    ensures Avoids("Cård", Lines24To33)
  {
    CapitalCardAvoids24(); CapitalCardAvoids27(); CapitalCardAvoids28(); CapitalCardAvoids31(); CapitalCardAvoids32(); CapitalCardAvoids33();
  }

  lemma CapitalCardAvoids34()
    ensures NotAligned("Cård", "border-radius")
  {
    QuickNotAlignedSound("Cård", "border-radius");
  }

  lemma CapitalCardAvoids35()
    ensures NotAligned("Cård", "margin")
  {
    QuickNotAlignedSound("Cård", "margin");
  }

  lemma CapitalCardAvoids36()
    ensures NotAligned("Cård", "var(--")
  {
    QuickNotAlignedSound("Cård", "var(--");
  }

  lemma CapitalCardAvoids37()
    ensures NotAligned("Cård", "scroll-margin")
  {
    QuickNotAlignedSound("Cård", "scroll-margin");
  }

  lemma CapitalCardAvoids40()
    ensures NotAligned("Cård", "Januar")
  {
    QuickNotAlignedSound("Cård", "Januar");
  }

  lemma CapitalCardAvoids41()
    ensures NotAligned("Cård", "Årsaker")
  {
    QuickNotAlignedSound("Cård", "Årsaker");
  }

  lemma Lines34To36AvoidCapitalCard()
    ensures Avoids("Cård", Lines34To36)
  {
    CapitalCardAvoids34(); CapitalCardAvoids35(); CapitalCardAvoids36();
  }

  lemma Lines37To41AvoidCapitalCard()
    ensures Avoids("Cård", Lines37To41)
  {
    CapitalCardAvoids37(); CapitalCardAvoids40(); CapitalCardAvoids41();
  }

  lemma CardAvoids24()
    ensures NotAligned("cård", "card")
  {
    QuickNotAlignedSound("cård", "card");
  }

  lemma CardAvoids27()
    ensures NotAligned("cård", "onlinebooking")
  {
    QuickNotAlignedSound("cård", "onlinebooking");
  }

  lemma CardAvoids28()
    ensures NotAligned("cård", "book-available")
  {
    QuickNotAlignedSound("cård", "book-available");
  }

  lemma CardAvoids31()
    ensures NotAligned("cård", "charset")
  {
    QuickNotAlignedSound("cård", "charset");
  }

  lemma CardAvoids32()
    ensures NotAligned("cård", "aria-")
  {
    QuickNotAlignedSound("cård", "aria-");
  }

  lemma CardAvoids33()
    ensures NotAligned("cård", "Transparent")
  {
    QuickNotAlignedSound("cård", "Transparent");
  }

  lemma Lines24To33AvoidCard()
    ensures Avoids("cård", Lines24To33)
  {
    CardAvoids24(); CardAvoids27(); CardAvoids28(); CardAvoids31(); CardAvoids32(); CardAvoids33();
  }

  lemma CardAvoids34()
    ensures NotAligned("cård", "border-radius")
  {
    QuickNotAlignedSound("cård", "border-radius");
  }

  lemma CardAvoids35()
    ensures NotAligned("cård", "margin")
  {
    QuickNotAlignedSound("cård", "margin");
  }

  lemma CardAvoids36()
    ensures NotAligned("cård", "var(--")
  {
    QuickNotAlignedSound("cård", "var(--");
  }

  lemma CardAvoids37()
    ensures NotAligned("cård", "scroll-margin")
  {
    QuickNotAlignedSound("cård", "scroll-margin");
  }

  lemma CardAvoids40()
    ensures NotAligned("cård", "Januar")
  {
    QuickNotAlignedSound("cård", "Januar");
  }

  lemma CardAvoids41()
    ensures NotAligned("cård", "Årsaker")
  {
    QuickNotAlignedSound("cård", "Årsaker");
  }

  lemma Lines34To36AvoidCard()
    ensures Avoids("cård", Lines34To36)
  {
    CardAvoids34(); CardAvoids35(); CardAvoids36();
  }

  lemma Lines37To41AvoidCard()
    ensures Avoids("cård", Lines37To41)
  {
    CardAvoids37(); CardAvoids40(); CardAvoids41();
  }

  lemma MarginAvoids35()
    ensures NotAligned("mårgin", "margin")
  {
    QuickNotAlignedSound("mårgin", "margin");
  }

  lemma MarginAvoids36()
    ensures NotAligned("mårgin", "var(--")
  {
    QuickNotAlignedSound("mårgin", "var(--");
  }

  lemma Assoc(a: seq<Rule>, b: seq<Rule>, c: seq<Rule>)
    ensures a + (b + c) == (a + b) + c
  {
  }

  /**
   * No `årticle`, `Cård` or `cård` survives (lines 18, 23 and 24): each
   * rule removes its bad string, and neither its good string nor a later
   * one can overlap that bad string and so bring it back.
   */
  lemma NoArticleLeft(content: string)
    ensures !Occurs(Fixed(content), "årticle")
  {
    FixesEntries();
    Lines18To22AvoidArticle();
    Line23AvoidArticle();
    Lines24To33AvoidArticle();
    Lines34To36AvoidArticle();
    Lines37To41AvoidArticle();
    AvoidsConcat("årticle", Lines34To36, Lines37To41);
    AvoidsConcat("årticle", Lines24To33, FromLine34);
    AvoidsConcat("årticle", Line23, FromLine24);
    AvoidsConcat("årticle", Lines18To22, FromLine23);
    CorruptedNonEmpty(Lines12To17);
    CorruptedNonEmpty(FromLine18);
    ApplyAllRemoves(Lines12To17, FromLine18, content, "årticle");
  }

  lemma NoCapitalCardLeft(content: string)
    ensures !Occurs(Fixed(content), "Cård")
  {
    FixesEntries();
    Line23AvoidCapitalCard();
    Lines24To33AvoidCapitalCard();
    Lines34To36AvoidCapitalCard();
    Lines37To41AvoidCapitalCard();
    AvoidsConcat("Cård", Lines34To36, Lines37To41);
    AvoidsConcat("Cård", Lines24To33, FromLine34);
    AvoidsConcat("Cård", Line23, FromLine24);
    var pre := Lines12To17 + Lines18To22;
    Assoc(Lines12To17, Lines18To22, FromLine23);
    CorruptedNonEmpty(pre);
    CorruptedNonEmpty(FromLine23);
    ApplyAllRemoves(pre, FromLine23, content, "Cård");
  }

  lemma NoCardLeft(content: string)
    ensures !Occurs(Fixed(content), "cård")
  {
    FixesEntries();
    Lines24To33AvoidCard();
    Lines34To36AvoidCard();
    Lines37To41AvoidCard();
    AvoidsConcat("cård", Lines34To36, Lines37To41);
    AvoidsConcat("cård", Lines24To33, FromLine34);
    var pre := Lines12To17 + Lines18To22 + Line23;
    Assoc(Lines18To22, Line23, FromLine24);
    Assoc(Lines12To17, Lines18To22 + Line23, FromLine24);
    Assoc(Lines12To17, Lines18To22, Line23);
    CorruptedNonEmpty(pre);
    CorruptedNonEmpty(FromLine24);
    ApplyAllRemoves(pre, FromLine24, content, "cård");
  }

  /**
   * The longer key `hub-årticle` (line 17) runs before its substring
   * `årticle` (line 18) and repairs its whole span.
   */
  lemma HubArticleRepaired()
    ensures Fixed("hub-årticle") == "hub-article"
  {
    FixesEntries();
    var pre := Lines12To17[..5];
    var r := Lines12To17[5];
    assert Lines12To17 == pre + [r];
    HubArticleMissesEarlier();
    CorruptedNonEmpty(pre);
    RepairedMissesAll(r.good, FromLine18);
    RuleFires(pre, r, FromLine18);
  }

  lemma HubArticleMissesEarlier()
    ensures forall i :: 0 <= i < 5 ==> !Occurs(Lines12To17[5].bad, Lines12To17[i].bad)
  {
    var key := Lines12To17[5].bad;
    MissingCharNoOccurrence(key, Lines12To17[0].bad, 'ø');
    MissingCharNoOccurrence(key, Lines12To17[1].bad, 'ø');
    assert key[4] != Lines12To17[2].bad[4];
    if Occurs(key, Lines12To17[2].bad) {
      SameLengthOccurs(key, Lines12To17[2].bad);
    }
    MissingCharNoOccurrence(key, Lines12To17[3].bad, 'ø');
    assert key[0] != Lines12To17[4].bad[0];
    if Occurs(key, Lines12To17[4].bad) {
      SameLengthOccurs(key, Lines12To17[4].bad);
    }
  }

  /** Likewise `-cård` (line 22) runs before `cård` (line 24). */
  lemma DashCardRepaired()
    ensures Fixed("-cård") == "-card"
  {
    FixesEntries();
    var pre := Lines12To17 + Lines18To22[..4];
    var r := Lines18To22[4];
    assert Lines18To22 == Lines18To22[..4] + [r];
    Assoc(Lines18To22[..4], [r], FromLine23);
    Assoc(Lines12To17, Lines18To22[..4] + [r], FromLine23);
    Assoc(Lines12To17, Lines18To22[..4], [r]);
    DashCardMissesEarlier();
    CorruptedNonEmpty(pre);
    CorruptedNonEmpty(FromLine23);
    RepairedMissesAll(r.good, FromLine23);
    RuleFires(pre, r, FromLine23);
  }

  lemma DashCardMissesEarlier()
    ensures forall i :: 0 <= i < |Lines12To17 + Lines18To22[..4]| ==>
      !Occurs(Lines18To22[4].bad, (Lines12To17 + Lines18To22[..4])[i].bad)
  {
    var pre := Lines12To17 + Lines18To22[..4];
    forall i | 0 <= i < |pre|
      ensures !Occurs(Lines18To22[4].bad, pre[i].bad)
    {
      assert |pre[i].bad| > 5;
      ShortHasNoOccurrence(Lines18To22[4].bad, pre[i].bad);
    }
  }

  /**
   * The rule `scroll-mårgin` (line 37) never matches: the rules of lines
   * 34-36, which run just before it, leave no `mårgin` and so no
   * `scroll-mårgin` in any text.
   */
  lemma ScrollMarginRuleIsDead(t: string)
    ensures WellFormed(Lines34To36) && Lines37To41[0].bad == "scroll-mårgin"
    ensures !Occurs(ApplyAll(Lines34To36, t), "scroll-mårgin")
  {
    MarginGone(t);
    var u := ApplyAll(Lines34To36, t);
    if Occurs(u, "scroll-mårgin") {
      MarginInScrollMargin();
      OccursTransitive(u, "scroll-mårgin", "mårgin");
    }
  }

  lemma MarginInScrollMargin()
    ensures Occurs("scroll-mårgin", "mårgin")
  {
    assert "scroll-mårgin"[7..13] == "mårgin";
    assert OccursAt("scroll-mårgin", "mårgin", 7);
  }

  /** After the rules of lines 34-36 no `mårgin` is left. */
  lemma MarginGone(t: string)
    ensures WellFormed(Lines34To36)
    ensures !Occurs(ApplyAll(Lines34To36, t), "mårgin")
  {
    Lines34To36Corrupted();
    CorruptedNonEmpty(Lines34To36);
    var pre, post := Lines34To36[..1], Lines34To36[1..];
    assert Lines34To36 == pre + post;
    MarginAvoids35();
    MarginAvoids36();
    CorruptedNonEmpty(pre);
    CorruptedNonEmpty(post);
    ApplyAllRemoves(pre, post, t, "mårgin");
  }

  /** The array as the left-nested concatenation of its pieces. */
  lemma FixesRegrouped()
    ensures Fixes == Lines12To17 + Lines18To22 + Line23 + Lines24To33 + Lines34To36 + Lines37To41
  {
    var a, b, c, d, e, f := Lines12To17, Lines18To22, Line23, Lines24To33, Lines34To36, Lines37To41;
    Assoc(d, e, f);
    Assoc(c, d + e, f);
    Assoc(c, d, e);
    Assoc(b, c + d + e, f);
    Assoc(b, c + d, e);
    Assoc(b, c, d);
    Assoc(a, b + c + d + e, f);
    Assoc(a, b + c + d, e);
    Assoc(a, b + c, d);
    Assoc(a, b, c);
  }
}
