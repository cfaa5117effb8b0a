/**
 * `fix_file` of website/scripts/fix-encoding.py: U+FFFD placeholders left
 * by a broken decode are repaired with a table of corrupted spellings. The
 * table is a dictionary literal; its entries are applied longest key first,
 * each replacing every occurrence and adding its count to a running total,
 * and the bare placeholder, the only one-character key, runs last.
 * Reading and writing the file are abstracted: the method takes the text
 * read and says what would be written.
 */
module PlaceholderRepair {
  import opened Options
  import opened Strings
  import opened Rewrite
  import opened DictLiteral
  import opened Sorting

  /** U+FFFD REPLACEMENT CHARACTER, the placeholder a failed decode leaves. */
  const Placeholder: char := '\U{FFFD}'

  /**
   * Characters no repaired text contains: the placeholder, and U+FFDD and
   * U+FFFE, which the keys of lines 67 and 98 carry instead of it.
   */
  predicate IsMarker(c: char)
  {
    c == Placeholder || c == '\U{FFDD}' || c == '\U{FFFE}'
  }

  predicate HasMarker(s: string)
  {
    Placeholder in s || '\U{FFDD}' in s || '\U{FFFE}' in s
  }

  /** Every character lies below U+FFDD, so none is a marker. */
  predicate PlainText(s: string)
  {
    forall k :: 0 <= k < |s| ==> s[k] < '\U{FFDD}'
  }

  lemma PlainHasNoMarker(s: string)
    requires PlainText(s)
    ensures !HasMarker(s)
    ensures forall k :: 0 <= k < |s| ==> !IsMarker(s[k])
  {
  }

  /**
   * What every table entry satisfies: its key carries a marker, its value
   * carries none, and only the bare placeholder is one character long.
   */
  predicate CheckedEntry(e: Rule)
  {
    HasMarker(e.bad) && PlainText(e.good) && (|e.bad| >= 2 || e.bad == [Placeholder])
  }

  // ---------------------------------------------------------------------
  // REPLACEMENTS, lines 11-137, cut into short runs of the source's groups
  // ---------------------------------------------------------------------

  /** "Words with å": lines 13-19. */
  const WordsWithAring1: seq<Rule> := [
    Rule("p\U{FFFD}", "på"),
    Rule("n\U{FFFD}r", "når"),
    Rule("N\U{FFFD}r", "Når"),
    Rule("\U{FFFD}rsaker", "årsaker"),
    Rule("\U{FFFD}rsak", "årsak"),
    Rule("\U{FFFD}rsaken", "årsaken"),
    Rule("\U{FFFD}pne", "Åpne")
  ]

  /** "Words with å": lines 20-26. */
  const WordsWithAring2: seq<Rule> := [
    Rule("\U{FFFD}pningstider", "Åpningstider"),
    Rule("m\U{FFFD}neder", "måneder"),
    Rule("ogs\U{FFFD}", "også"),
    Rule("m\U{FFFD}", "må"),
    Rule("s\U{FFFD}", "så"),
    Rule("g\U{FFFD}", "gå"),
    Rule("G\U{FFFD}", "Gå")
  ]

  /** "Words with å": lines 27-33. */
  const WordsWithAring3: seq<Rule> := [
    Rule("g\U{FFFD}r", "går"),
    Rule("st\U{FFFD}r", "står"),
    Rule("oppst\U{FFFD}r", "oppstår"),
    Rule("Unng\U{FFFD}", "Unngå"),
    Rule("unng\U{FFFD}", "unngå"),
    Rule("r\U{FFFD}de", "råde"),
    Rule("fr\U{FFFD}", "frå")
  ]

  /** "Words with ø": lines 36-43. */
  const WordsWithOslash1: seq<Rule> := [
    Rule("b\U{FFFD}r", "bør"),
    Rule("B\U{FFFD}r", "Bør"),
    Rule("f\U{FFFD}r", "før"),
    Rule("F\U{FFFD}r", "Før"),
    Rule("f\U{FFFD}rst", "først"),
    Rule("f\U{FFFD}rste", "første"),
    Rule("\U{FFFD}velser", "øvelser"),
    Rule("\U{FFFD}vre", "øvre")
  ]

  /** "Words with ø": lines 44-51. */
  const WordsWithOslash2: seq<Rule> := [
    Rule("\U{FFFD}kt", "økt"),
    Rule("\U{FFFD}ker", "øker"),
    Rule("s\U{FFFD}ke", "søke"),
    Rule("s\U{FFFD}rlig", "særlig"),
    Rule("gj\U{FFFD}r", "gjør"),
    Rule("gj\U{FFFD}re", "gjøre"),
    Rule("n\U{FFFD}vendig", "nødvendig"),
    Rule("n\U{FFFD}vendige", "nødvendige")
  ]

  /** "Words with ø": lines 52-59. */
  const WordsWithOslash3: seq<Rule> := [
    Rule("Opps\U{FFFD}k", "Oppsøk"),
    Rule("opps\U{FFFD}k", "oppsøk"),
    Rule("r\U{FFFD}ntgen", "røntgen"),
    Rule("R\U{FFFD}ntgen", "Røntgen"),
    Rule("vestibul\U{FFFD}r", "vestibulær"),
    Rule("F\U{FFFD}lg", "Følg"),
    Rule("f\U{FFFD}lg", "følg"),
    Rule("R\U{FFFD}de", "Røde")
  ]

  /** "Words with ø": lines 60-67. */
  const WordsWithOslash4: seq<Rule> := [
    Rule("r\U{FFFD}de", "røde"),
    Rule("Bes\U{FFFD}k", "Besøk"),
    Rule("bes\U{FFFD}k", "besøk"),
    Rule("h\U{FFFD}y", "høy"),
    Rule("H\U{FFFD}y", "Høy"),
    Rule("h\U{FFFD}yre", "høyre"),
    Rule("H\U{FFFD}yre", "Høyre"),
    Rule("h\U{FFDD}t", "høyt")
  ]

  /** "Words with ø": lines 68-75. */
  const WordsWithOslash5: seq<Rule> := [
    Rule("bl\U{FFFD}ff", "bløff"),
    Rule("bl\U{FFFD}t", "bløt"),
    Rule("kj\U{FFFD}p", "kjøp"),
    Rule("d\U{FFFD}r", "dør"),
    Rule("D\U{FFFD}r", "Dør"),
    Rule("sm\U{FFFD}rte", "smørte"),
    Rule("st\U{FFFD}rre", "større"),
    Rule("St\U{FFFD}rre", "Større")
  ]

  /** "Words with ø": lines 76-83. */
  const WordsWithOslash6: seq<Rule> := [
    Rule("L\U{FFFD}rdag", "Lørdag"),
    Rule("l\U{FFFD}rdag", "lørdag"),
    Rule("S\U{FFFD}ndag", "Søndag"),
    Rule("s\U{FFFD}ndag", "søndag"),
    Rule("sp\U{FFFD}rsm", "spørsm"),
    Rule("\U{FFFD}t", "øt"),
    Rule("\U{FFFD}l", "øl"),
    Rule("\U{FFFD}s", "ås")
  ]

  /** "Words with æ": lines 86-91. */
  const WordsWithAe1: seq<Rule> := [
    Rule("v\U{FFFD}re", "være"),
    Rule("V\U{FFFD}re", "Være"),
    Rule("L\U{FFFD}r", "Lær"),
    Rule("l\U{FFFD}r", "lær"),
    Rule("l\U{FFFD}re", "lære"),
    Rule("s\U{FFFD}rbarheten", "sårbarheten")
  ]

  /** "Words with æ": lines 92-97. */
  const WordsWithAe2: seq<Rule> := [
    Rule("Personvernerkl\U{FFFD}ring", "Personvernerklæring"),
    Rule("erkl\U{FFFD}ring", "erklæring"),
    Rule("n\U{FFFD}r", "nær"),
    Rule("N\U{FFFD}r", "Nær"),
    Rule("n\U{FFFD}rliggende", "nærliggende"),
    Rule("sj\U{FFFD}lden", "sjælden")
  ]

  /** "Words with æ": lines 98-103. */
  const WordsWithAe3: seq<Rule> := [
    Rule("n\U{FFFE}rmest", "nærmest"),
    Rule("n\U{FFFD}rmere", "nærmere"),
    Rule("b\U{FFFD}rende", "bærende"),
    Rule("\U{FFFD}rekjeve", "Ørekjeve"),
    Rule("Spr\U{FFFD}kvalg", "Språkvalg"),
    Rule("spr\U{FFFD}kvalg", "språkvalg")
  ]

  /** "Words with å (at word boundary)": lines 106-112. */
  const WordsWithAringAtBoundary1: seq<Rule> := [
    Rule("p\U{FFFD}virker", "påvirker"),
    Rule("p\U{FFFD}virke", "påvirke"),
    Rule("p\U{FFFD}virkning", "påvirkning"),
    Rule("p\U{FFFD}ta", "påta"),
    Rule("p\U{FFFD}se", "påse"),
    Rule("p\U{FFFD}peke", "påpeke"),
    Rule("p\U{FFFD}legg", "pålegg")
  ]

  /** "Words with å (at word boundary)": lines 113-119. */
  const WordsWithAringAtBoundary2: seq<Rule> := [
    Rule("p\U{FFFD}f\U{FFFD}lgende", "påfølgende"),
    Rule("\U{FFFD}r", "år"),
    Rule("\U{FFFD}ret", "året"),
    Rule("\U{FFFD}rs", "års"),
    Rule("\U{FFFD}pen", "åpen"),
    Rule("\U{FFFD}pent", "åpent"),
    Rule("\U{FFFD}tte", "åtte")
  ]

  /** "Additional common patterns": lines 122-127. */
  const CommonPatterns1: seq<Rule> := [
    Rule("unders\U{FFFD}kelse", "undersøkelse"),
    Rule("Unders\U{FFFD}kelse", "Undersøkelse"),
    Rule("unders\U{FFFD}k", "undersøk"),
    Rule("s\U{FFFD}rbar", "sårbar"),
    Rule("h\U{FFFD}r", "hår"),
    Rule("H\U{FFFD}r", "Hår")
  ]

  /** "Additional common patterns": lines 128-133. */
  const CommonPatterns2: seq<Rule> := [
    Rule("kn\U{FFFD}", "knå"),
    Rule("l\U{FFFD}ne", "låne"),
    Rule("bl\U{FFFD}", "blå"),
    Rule("Bl\U{FFFD}", "Blå"),
    Rule("r\U{FFFD}", "rå"),
    Rule("tr\U{FFFD}", "trå")
  ]

  /** "Single character at end/start of words (generic)": lines 136-136. */
  const CatchAll: seq<Rule> := [
    Rule("\U{FFFD}", "å")
  ]

  /** The literal of lines 11-97: every entry up to and including the second writes of lines 94-95. */
  const LiteralToLine97: seq<Rule> :=
    WordsWithAring1 + WordsWithAring2 + WordsWithAring3 + WordsWithOslash1
    + WordsWithOslash2 + WordsWithOslash3 + WordsWithOslash4 + WordsWithOslash5
    + WordsWithOslash6 + WordsWithAe1 + WordsWithAe2

  /** The literal of lines 11-137, entry by entry, duplicates included. */
  const ReplacementLiteral: seq<Rule> :=
    LiteralToLine97 + WordsWithAe3 + WordsWithAringAtBoundary1 + WordsWithAringAtBoundary2
    + CommonPatterns1 + CommonPatterns2 + CatchAll

  // ---------------------------------------------------------------------
  // Facts about the table, run by run
  // ---------------------------------------------------------------------

  /** Every entry of `t` satisfies CheckedEntry. */
  predicate AllChecked(t: seq<Rule>)
  {
    forall e :: e in t ==> CheckedEntry(e)
  }

  lemma RunChecked(t: seq<Rule>)
    requires forall i :: 0 <= i < |t| ==> HasMarker(t[i].bad)
    requires forall i :: 0 <= i < |t| ==> PlainText(t[i].good)
    requires forall i :: 0 <= i < |t| ==> |t[i].bad| >= 2 || t[i].bad == [Placeholder]
    ensures AllChecked(t)
  {
  }

  lemma ConcatChecked(a: seq<Rule>, b: seq<Rule>)
    requires AllChecked(a) && AllChecked(b)
    ensures AllChecked(a + b)
  {
  }

  lemma WordsWithAring1KeysMarked()
    ensures forall i :: 0 <= i < |WordsWithAring1| ==> HasMarker(WordsWithAring1[i].bad)
  {
  }

  lemma WordsWithAring1ValuesPlain()
    ensures forall i :: 0 <= i < |WordsWithAring1| ==> PlainText(WordsWithAring1[i].good)
  {
  }

  lemma WordsWithAring1KeysLong()
    ensures forall i :: 0 <= i < |WordsWithAring1| ==> |WordsWithAring1[i].bad| >= 2 || WordsWithAring1[i].bad == [Placeholder]
  {
  }

  lemma WordsWithAring1Checked()
    ensures AllChecked(WordsWithAring1)
  {
    WordsWithAring1KeysMarked();
    WordsWithAring1ValuesPlain();
    WordsWithAring1KeysLong();
    RunChecked(WordsWithAring1);
  }

  lemma WordsWithAring2KeysMarked()
    ensures forall i :: 0 <= i < |WordsWithAring2| ==> HasMarker(WordsWithAring2[i].bad)
  {
  }

  lemma WordsWithAring2ValuesPlain()
    ensures forall i :: 0 <= i < |WordsWithAring2| ==> PlainText(WordsWithAring2[i].good)
  {
  }

  lemma WordsWithAring2KeysLong()
    ensures forall i :: 0 <= i < |WordsWithAring2| ==> |WordsWithAring2[i].bad| >= 2 || WordsWithAring2[i].bad == [Placeholder]
  {
  }

  lemma WordsWithAring2Checked()
    ensures AllChecked(WordsWithAring2)
  {
    WordsWithAring2KeysMarked();
    WordsWithAring2ValuesPlain();
    WordsWithAring2KeysLong();
    RunChecked(WordsWithAring2);
  }

  lemma WordsWithAring3KeysMarked()
    ensures forall i :: 0 <= i < |WordsWithAring3| ==> HasMarker(WordsWithAring3[i].bad)
  {
  }

  lemma WordsWithAring3ValuesPlain()
    ensures forall i :: 0 <= i < |WordsWithAring3| ==> PlainText(WordsWithAring3[i].good)
  {
  }

  lemma WordsWithAring3KeysLong()
    ensures forall i :: 0 <= i < |WordsWithAring3| ==> |WordsWithAring3[i].bad| >= 2 || WordsWithAring3[i].bad == [Placeholder]
  {
  }

  lemma WordsWithAring3Checked()
    ensures AllChecked(WordsWithAring3)
  {
    WordsWithAring3KeysMarked();
    WordsWithAring3ValuesPlain();
    WordsWithAring3KeysLong();
    RunChecked(WordsWithAring3);
  }

  lemma WordsWithOslash1KeysMarked()
    ensures forall i :: 0 <= i < |WordsWithOslash1| ==> HasMarker(WordsWithOslash1[i].bad)
  {
  }

  lemma WordsWithOslash1ValuesPlain()
    ensures forall i :: 0 <= i < |WordsWithOslash1| ==> PlainText(WordsWithOslash1[i].good)
  {
  }

  lemma WordsWithOslash1KeysLong()
    ensures forall i :: 0 <= i < |WordsWithOslash1| ==> |WordsWithOslash1[i].bad| >= 2 || WordsWithOslash1[i].bad == [Placeholder]
  {
  }

  lemma WordsWithOslash1Checked()
    ensures AllChecked(WordsWithOslash1)
  {
    WordsWithOslash1KeysMarked();
    WordsWithOslash1ValuesPlain();
    WordsWithOslash1KeysLong();
    RunChecked(WordsWithOslash1);
  }

  lemma WordsWithOslash2KeysMarked()
    ensures forall i :: 0 <= i < |WordsWithOslash2| ==> HasMarker(WordsWithOslash2[i].bad)
  {
  }

  lemma WordsWithOslash2ValuesPlain()
    ensures forall i :: 0 <= i < |WordsWithOslash2| ==> PlainText(WordsWithOslash2[i].good)
  {
  }

  lemma WordsWithOslash2KeysLong()
    ensures forall i :: 0 <= i < |WordsWithOslash2| ==> |WordsWithOslash2[i].bad| >= 2 || WordsWithOslash2[i].bad == [Placeholder]
  {
  }

  lemma WordsWithOslash2Checked()
    ensures AllChecked(WordsWithOslash2)
  {
    WordsWithOslash2KeysMarked();
    WordsWithOslash2ValuesPlain();
    WordsWithOslash2KeysLong();
    RunChecked(WordsWithOslash2);
  }

  lemma WordsWithOslash3KeysMarked()
    ensures forall i :: 0 <= i < |WordsWithOslash3| ==> HasMarker(WordsWithOslash3[i].bad)
  {
  }

  lemma WordsWithOslash3ValuesPlain()
    ensures forall i :: 0 <= i < |WordsWithOslash3| ==> PlainText(WordsWithOslash3[i].good)
  {
  }

  lemma WordsWithOslash3KeysLong()
    ensures forall i :: 0 <= i < |WordsWithOslash3| ==> |WordsWithOslash3[i].bad| >= 2 || WordsWithOslash3[i].bad == [Placeholder]
  {
  }

  lemma WordsWithOslash3Checked()
    ensures AllChecked(WordsWithOslash3)
  {
    WordsWithOslash3KeysMarked();
    WordsWithOslash3ValuesPlain();
    WordsWithOslash3KeysLong();
    RunChecked(WordsWithOslash3);
  }

  lemma WordsWithOslash4KeysMarked()
    ensures forall i :: 0 <= i < |WordsWithOslash4| ==> HasMarker(WordsWithOslash4[i].bad)
  {
  }

  lemma WordsWithOslash4ValuesPlain()
    ensures forall i :: 0 <= i < |WordsWithOslash4| ==> PlainText(WordsWithOslash4[i].good)
  {
  }

  lemma WordsWithOslash4KeysLong()
    ensures forall i :: 0 <= i < |WordsWithOslash4| ==> |WordsWithOslash4[i].bad| >= 2 || WordsWithOslash4[i].bad == [Placeholder]
  {
  }

  lemma WordsWithOslash4Checked()
    ensures AllChecked(WordsWithOslash4)
  {
    WordsWithOslash4KeysMarked();
    WordsWithOslash4ValuesPlain();
    WordsWithOslash4KeysLong();
    RunChecked(WordsWithOslash4);
  }

  lemma WordsWithOslash5KeysMarked()
    ensures forall i :: 0 <= i < |WordsWithOslash5| ==> HasMarker(WordsWithOslash5[i].bad)
  {
  }

  lemma WordsWithOslash5ValuesPlain()
    ensures forall i :: 0 <= i < |WordsWithOslash5| ==> PlainText(WordsWithOslash5[i].good)
  {
  }

  lemma WordsWithOslash5KeysLong()
    ensures forall i :: 0 <= i < |WordsWithOslash5| ==> |WordsWithOslash5[i].bad| >= 2 || WordsWithOslash5[i].bad == [Placeholder]
  {
  }

  lemma WordsWithOslash5Checked()
    ensures AllChecked(WordsWithOslash5)
  {
    WordsWithOslash5KeysMarked();
    WordsWithOslash5ValuesPlain();
    WordsWithOslash5KeysLong();
    RunChecked(WordsWithOslash5);
  }

  lemma WordsWithOslash6KeysMarked()
    ensures forall i :: 0 <= i < |WordsWithOslash6| ==> HasMarker(WordsWithOslash6[i].bad)
  {
  }

  lemma WordsWithOslash6ValuesPlain()
    ensures forall i :: 0 <= i < |WordsWithOslash6| ==> PlainText(WordsWithOslash6[i].good)
  {
  }

  lemma WordsWithOslash6KeysLong()
    ensures forall i :: 0 <= i < |WordsWithOslash6| ==> |WordsWithOslash6[i].bad| >= 2 || WordsWithOslash6[i].bad == [Placeholder]
  {
  }

  lemma WordsWithOslash6Checked()
    ensures AllChecked(WordsWithOslash6)
  {
    WordsWithOslash6KeysMarked();
    WordsWithOslash6ValuesPlain();
    WordsWithOslash6KeysLong();
    RunChecked(WordsWithOslash6);
  }

  lemma WordsWithAe1KeysMarked()
    ensures forall i :: 0 <= i < |WordsWithAe1| ==> HasMarker(WordsWithAe1[i].bad)
  {
  }

  lemma WordsWithAe1ValuesPlain()
    ensures forall i :: 0 <= i < |WordsWithAe1| ==> PlainText(WordsWithAe1[i].good)
  {
  }

  lemma WordsWithAe1KeysLong()
    ensures forall i :: 0 <= i < |WordsWithAe1| ==> |WordsWithAe1[i].bad| >= 2 || WordsWithAe1[i].bad == [Placeholder]
  {
  }

  lemma WordsWithAe1Checked()
    ensures AllChecked(WordsWithAe1)
  {
    WordsWithAe1KeysMarked();
    WordsWithAe1ValuesPlain();
    WordsWithAe1KeysLong();
    RunChecked(WordsWithAe1);
  }

  lemma WordsWithAe2KeysMarked()
    ensures forall i :: 0 <= i < |WordsWithAe2| ==> HasMarker(WordsWithAe2[i].bad)
  {
  }

  lemma WordsWithAe2ValuesPlain()
    ensures forall i :: 0 <= i < |WordsWithAe2| ==> PlainText(WordsWithAe2[i].good)
  {
  }

  lemma WordsWithAe2KeysLong()
    ensures forall i :: 0 <= i < |WordsWithAe2| ==> |WordsWithAe2[i].bad| >= 2 || WordsWithAe2[i].bad == [Placeholder]
  {
  }

  lemma WordsWithAe2Checked()
    ensures AllChecked(WordsWithAe2)
  {
    WordsWithAe2KeysMarked();
    WordsWithAe2ValuesPlain();
    WordsWithAe2KeysLong();
    RunChecked(WordsWithAe2);
  }

  lemma WordsWithAe3KeysMarked()
    ensures forall i :: 0 <= i < |WordsWithAe3| ==> HasMarker(WordsWithAe3[i].bad)
  {
  }

  lemma WordsWithAe3ValuesPlain()
    ensures forall i :: 0 <= i < |WordsWithAe3| ==> PlainText(WordsWithAe3[i].good)
  {
  }

  lemma WordsWithAe3KeysLong()
    ensures forall i :: 0 <= i < |WordsWithAe3| ==> |WordsWithAe3[i].bad| >= 2 || WordsWithAe3[i].bad == [Placeholder]
  {
  }

  lemma WordsWithAe3Checked()
    ensures AllChecked(WordsWithAe3)
  {
    WordsWithAe3KeysMarked();
    WordsWithAe3ValuesPlain();
    WordsWithAe3KeysLong();
    RunChecked(WordsWithAe3);
  }

  lemma WordsWithAringAtBoundary1KeysMarked()
    ensures forall i :: 0 <= i < |WordsWithAringAtBoundary1| ==> HasMarker(WordsWithAringAtBoundary1[i].bad)
  {
  }

  lemma WordsWithAringAtBoundary1ValuesPlain()
    ensures forall i :: 0 <= i < |WordsWithAringAtBoundary1| ==> PlainText(WordsWithAringAtBoundary1[i].good)
  {
  }

  lemma WordsWithAringAtBoundary1KeysLong()
    ensures forall i :: 0 <= i < |WordsWithAringAtBoundary1| ==> |WordsWithAringAtBoundary1[i].bad| >= 2 || WordsWithAringAtBoundary1[i].bad == [Placeholder]
  {
  }

  lemma WordsWithAringAtBoundary1Checked()
    ensures AllChecked(WordsWithAringAtBoundary1)
  {
    WordsWithAringAtBoundary1KeysMarked();
    WordsWithAringAtBoundary1ValuesPlain();
    WordsWithAringAtBoundary1KeysLong();
    RunChecked(WordsWithAringAtBoundary1);
  }

  lemma WordsWithAringAtBoundary2KeysMarked()
    ensures forall i :: 0 <= i < |WordsWithAringAtBoundary2| ==> HasMarker(WordsWithAringAtBoundary2[i].bad)
  {
  }

  lemma WordsWithAringAtBoundary2ValuesPlain()
    ensures forall i :: 0 <= i < |WordsWithAringAtBoundary2| ==> PlainText(WordsWithAringAtBoundary2[i].good)
  {
  }

  lemma WordsWithAringAtBoundary2KeysLong()
    ensures forall i :: 0 <= i < |WordsWithAringAtBoundary2| ==> |WordsWithAringAtBoundary2[i].bad| >= 2 || WordsWithAringAtBoundary2[i].bad == [Placeholder]
  {
  }

  lemma WordsWithAringAtBoundary2Checked()
    ensures AllChecked(WordsWithAringAtBoundary2)
  {
    WordsWithAringAtBoundary2KeysMarked();
    WordsWithAringAtBoundary2ValuesPlain();
    WordsWithAringAtBoundary2KeysLong();
    RunChecked(WordsWithAringAtBoundary2);
  }

  lemma CommonPatterns1KeysMarked()
    ensures forall i :: 0 <= i < |CommonPatterns1| ==> HasMarker(CommonPatterns1[i].bad)
  {
  }

  lemma CommonPatterns1ValuesPlain()
    ensures forall i :: 0 <= i < |CommonPatterns1| ==> PlainText(CommonPatterns1[i].good)
  {
  }

  lemma CommonPatterns1KeysLong()
    ensures forall i :: 0 <= i < |CommonPatterns1| ==> |CommonPatterns1[i].bad| >= 2 || CommonPatterns1[i].bad == [Placeholder]
  {
  }

  lemma CommonPatterns1Checked()
    ensures AllChecked(CommonPatterns1)
  {
    CommonPatterns1KeysMarked();
    CommonPatterns1ValuesPlain();
    CommonPatterns1KeysLong();
    RunChecked(CommonPatterns1);
  }

  lemma CommonPatterns2KeysMarked()
    ensures forall i :: 0 <= i < |CommonPatterns2| ==> HasMarker(CommonPatterns2[i].bad)
  {
  }

  lemma CommonPatterns2ValuesPlain()
    ensures forall i :: 0 <= i < |CommonPatterns2| ==> PlainText(CommonPatterns2[i].good)
  {
  }

  lemma CommonPatterns2KeysLong()
    ensures forall i :: 0 <= i < |CommonPatterns2| ==> |CommonPatterns2[i].bad| >= 2 || CommonPatterns2[i].bad == [Placeholder]
  {
  }

  lemma CommonPatterns2Checked()
    ensures AllChecked(CommonPatterns2)
  {
    CommonPatterns2KeysMarked();
    CommonPatterns2ValuesPlain();
    CommonPatterns2KeysLong();
    RunChecked(CommonPatterns2);
  }

  lemma CatchAllKeysMarked()
    ensures forall i :: 0 <= i < |CatchAll| ==> HasMarker(CatchAll[i].bad)
  {
  }

  lemma CatchAllValuesPlain()
    ensures forall i :: 0 <= i < |CatchAll| ==> PlainText(CatchAll[i].good)
  {
  }

  lemma CatchAllKeysLong()
    ensures forall i :: 0 <= i < |CatchAll| ==> |CatchAll[i].bad| >= 2 || CatchAll[i].bad == [Placeholder]
  {
  }

  lemma CatchAllChecked()
    ensures AllChecked(CatchAll)
  {
    CatchAllKeysMarked();
    CatchAllValuesPlain();
    CatchAllKeysLong();
    RunChecked(CatchAll);
  }

  lemma LiteralChecked()
    ensures AllChecked(ReplacementLiteral)
  {
    WordsWithAring1Checked();
    WordsWithAring2Checked();
    ConcatChecked(WordsWithAring1, WordsWithAring2);
    WordsWithAring3Checked();
    ConcatChecked(WordsWithAring1 + WordsWithAring2, WordsWithAring3);
    WordsWithOslash1Checked();
    ConcatChecked(WordsWithAring1 + WordsWithAring2 + WordsWithAring3, WordsWithOslash1);
    WordsWithOslash2Checked();
    ConcatChecked(WordsWithAring1 + WordsWithAring2 + WordsWithAring3 + WordsWithOslash1, WordsWithOslash2);
    WordsWithOslash3Checked();
    ConcatChecked(WordsWithAring1 + WordsWithAring2 + WordsWithAring3 + WordsWithOslash1 + WordsWithOslash2, WordsWithOslash3);
    WordsWithOslash4Checked();
    ConcatChecked(WordsWithAring1 + WordsWithAring2 + WordsWithAring3 + WordsWithOslash1 + WordsWithOslash2 + WordsWithOslash3, WordsWithOslash4);
    WordsWithOslash5Checked();
    ConcatChecked(WordsWithAring1 + WordsWithAring2 + WordsWithAring3 + WordsWithOslash1 + WordsWithOslash2 + WordsWithOslash3 + WordsWithOslash4, WordsWithOslash5);
    WordsWithOslash6Checked();
    ConcatChecked(WordsWithAring1 + WordsWithAring2 + WordsWithAring3 + WordsWithOslash1 + WordsWithOslash2 + WordsWithOslash3 + WordsWithOslash4 + WordsWithOslash5, WordsWithOslash6);
    WordsWithAe1Checked();
    ConcatChecked(WordsWithAring1 + WordsWithAring2 + WordsWithAring3 + WordsWithOslash1 + WordsWithOslash2 + WordsWithOslash3 + WordsWithOslash4 + WordsWithOslash5 + WordsWithOslash6, WordsWithAe1);
    WordsWithAe2Checked();
    ConcatChecked(WordsWithAring1 + WordsWithAring2 + WordsWithAring3 + WordsWithOslash1 + WordsWithOslash2 + WordsWithOslash3 + WordsWithOslash4 + WordsWithOslash5 + WordsWithOslash6 + WordsWithAe1, WordsWithAe2);
    assert AllChecked(LiteralToLine97);
    WordsWithAe3Checked();
    ConcatChecked(LiteralToLine97, WordsWithAe3);
    WordsWithAringAtBoundary1Checked();
    ConcatChecked(LiteralToLine97 + WordsWithAe3, WordsWithAringAtBoundary1);
    WordsWithAringAtBoundary2Checked();
    ConcatChecked(LiteralToLine97 + WordsWithAe3 + WordsWithAringAtBoundary1, WordsWithAringAtBoundary2);
    CommonPatterns1Checked();
    ConcatChecked(LiteralToLine97 + WordsWithAe3 + WordsWithAringAtBoundary1 + WordsWithAringAtBoundary2, CommonPatterns1);
    CommonPatterns2Checked();
    ConcatChecked(LiteralToLine97 + WordsWithAe3 + WordsWithAringAtBoundary1 + WordsWithAringAtBoundary2 + CommonPatterns1, CommonPatterns2);
    CatchAllChecked();
    ConcatChecked(LiteralToLine97 + WordsWithAe3 + WordsWithAringAtBoundary1 + WordsWithAringAtBoundary2 + CommonPatterns1 + CommonPatterns2, CatchAll);
  }

  // ---------------------------------------------------------------------
  // The dictionary and its sorted order (line 155)
  // ---------------------------------------------------------------------

  /** `REPLACEMENTS`: the dictionary the literal denotes, in iteration order. */
  const Replacements: seq<Rule> := FromLiteral(ReplacementLiteral)

  /** The sort key of line 155: the negated key length. */
  function ByLength(r: Rule): int
  {
    -|r.bad|
  }

  /** `sorted(REPLACEMENTS.items(), key=lambda x: -len(x[0]))`. */
  const SortedReplacements: seq<Rule> := SortBy(Replacements, ByLength)

  /** The dictionary's entries satisfy CheckedEntry. */
  lemma ReplacementsChecked()
    ensures AllChecked(Replacements)
  {
    LiteralChecked();
    DictChecked(ReplacementLiteral);
  }

  lemma DictChecked(lit: seq<Rule>)
    requires AllChecked(lit)
    ensures AllChecked(FromLiteral(lit))
  {
  }

  /** Sorting keeps CheckedEntry. */
  lemma SortChecked(d: seq<Rule>)
    requires AllChecked(d)
    ensures AllChecked(SortBy(d, ByLength))
    ensures WellFormed(SortBy(d, ByLength))
  {
    SortByMembers(d, ByLength);
    var s := SortBy(d, ByLength);
    forall i | 0 <= i < |s|
      ensures s[i].bad != []
    {
      assert s[i] in d;
      assert HasMarker(s[i].bad);
    }
  }

  /** The sorted list holds the dictionary's entries, so they satisfy CheckedEntry too. */
  lemma SortedChecked()
    ensures AllChecked(SortedReplacements)
    ensures WellFormed(SortedReplacements)
  {
    ReplacementsChecked();
    SortChecked(Replacements);
  }

  /** The text the rule loop of lines 157-161 leaves behind. */
  function Repaired(s: string): string
  {
    SortedChecked();
    ApplyAll(SortedReplacements, s)
  }

  /** The running total of lines 157-161: the occurrences each rule rewrites. */
  function TotalHits(s: string): nat
  {
    SortedChecked();
    Hits(SortedReplacements, s)
  }

  // ---------------------------------------------------------------------
  // fix_file (lines 139-176)
  // ---------------------------------------------------------------------

  /**
   * The rewrite of `fix_file` on the text `content` read from a file:
   * `result` is the text the file holds afterwards, `changes` the count
   * returned, `written` whether the file is rewritten.
   */
  method FixContent(content: string) returns (result: string, changes: nat, written: bool)
    ensures Placeholder !in content ==> result == content && changes == 0 && !written
    ensures Placeholder in content ==> result == Repaired(content)
    ensures written <==> result != content
    ensures changes == if written then TotalHits(content) else 0
    ensures written <==> changes > 0
    ensures Placeholder !in result
  {
    if Placeholder !in content {
      return content, 0, false;
    }
    SortedChecked();
    var text, total := ReplaceCounting(SortedReplacements, content);
    NoPlaceholderRemains(content);
    HitsIffChanged(content);
    if text != content {
      return text, total, true;
    }
    return content, 0, false;
  }

  // ---------------------------------------------------------------------
  // What the order and the table guarantee
  // ---------------------------------------------------------------------

  /** What the proofs below need of a table: the facts REPLACEMENTS has. */
  predicate GoodTable(d: seq<Rule>)
  {
    AllChecked(d) && UniqueKeys(d) && Distinct(d) && Rule([Placeholder], "å") in d
  }

  /** The dictionary has one entry per key: a key given twice is stored once. */
  lemma ReplacementsUniqueKeys()
    ensures UniqueKeys(Replacements)
  {
    FromLiteralKeys(ReplacementLiteral);
  }

  /** Unique keys make the entries distinct. */
  lemma UniqueKeysDistinct(d: seq<Rule>)
    requires UniqueKeys(d)
    ensures Distinct(d)
  {
  }

  /** The catch-all of line 136 is an entry. */
  lemma CatchAllEntry()
    ensures Rule([Placeholder], "å") in Replacements
  {
    FromLiteralLookup(LiteralToLine97 + WordsWithAe3 + WordsWithAringAtBoundary1 + WordsWithAringAtBoundary2
      + CommonPatterns1 + CommonPatterns2 + CatchAll, [Placeholder]);
    LastValueConcat(LiteralToLine97 + WordsWithAe3 + WordsWithAringAtBoundary1 + WordsWithAringAtBoundary2
      + CommonPatterns1 + CommonPatterns2, CatchAll, [Placeholder]);
    LookupFound(Replacements, [Placeholder], "å");
  }

  lemma ReplacementsGood()
    ensures GoodTable(Replacements)
  {
    ReplacementsChecked();
    ReplacementsUniqueKeys();
    UniqueKeysDistinct(Replacements);
    CatchAllEntry();
  }

  /** Rules run longest key first (line 155). */
  lemma LongestFirst(d: seq<Rule>, i: int, j: int)
    requires 0 <= i < j < |SortBy(d, ByLength)|
    ensures |SortBy(d, ByLength)[i].bad| >= |SortBy(d, ByLength)[j].bad|
  {
    SortBySorted(d, ByLength);
  }

  /** Keys of equal length run in dictionary order, because the sort is stable. */
  lemma EqualLengthsInDictionaryOrder(d: seq<Rule>, n: int)
    ensures WithKey(SortBy(d, ByLength), ByLength, -n) == WithKey(d, ByLength, -n)
  {
    SortByStable(d, ByLength, -n);
  }

  /** The only key of at most one character is the bare placeholder. */
  lemma OnlyShortKey(d: seq<Rule>, r: Rule)
    requires AllChecked(d) && r in d && |r.bad| <= 1
    ensures r.bad == [Placeholder]
  {
    assert CheckedEntry(r);
  }

  /** With unique keys, entries with the same key are the same entry. */
  lemma SameKeySameEntry(d: seq<Rule>, a: Rule, b: Rule)
    requires UniqueKeys(d) && a in d && b in d && a.bad == b.bad
    ensures a == b
  {
    var i :| 0 <= i < |d| && d[i] == a;
    var j :| 0 <= j < |d| && d[j] == b;
    LookupEntry(d, i);
    LookupEntry(d, j);
  }

  /** The entry with key [Placeholder] sorts last: it is the only one-character key. */
  lemma CatchAllLast(d: seq<Rule>)
    requires GoodTable(d)
    ensures |SortBy(d, ByLength)| >= 1
    ensures SortBy(d, ByLength)[|SortBy(d, ByLength)| - 1] == Rule([Placeholder], "å")
  {
    LastEntryIsCatchAll(d, SortBy(d, ByLength));
  }

  /** The same for the sorted table given by name. */
  lemma LastEntryIsCatchAll(d: seq<Rule>, s: seq<Rule>)
    requires GoodTable(d) && s == SortBy(d, ByLength)
    ensures |s| >= 1 && s[|s| - 1] == Rule([Placeholder], "å")
  {
    var c := Rule([Placeholder], "å");
    SortedLastShort(d, s, c);
    var last := s[|s| - 1];
    OnlyShortKey(d, last);
    SameKeySameEntry(d, last, c);
  }

  /** Sorted longest key first, a table holding a one-character key ends with an entry of at most one character. */
  lemma SortedLastShort(d: seq<Rule>, s: seq<Rule>, c: Rule)
    requires s == SortBy(d, ByLength) && c in d && |c.bad| == 1
    ensures |s| >= 1 && |s[|s| - 1].bad| <= 1 && s[|s| - 1] in d
  {
    SortByMembers(d, ByLength);
    SortBySorted(d, ByLength);
    LastIsShortest(s, c);
    assert s[|s| - 1] in s;
  }

  /** In a list sorted longest key first, the last key is no longer than a one-character key in the list. */
  lemma LastIsShortest(s: seq<Rule>, c: Rule)
    requires SortedBy(s, ByLength) && c in s && |c.bad| == 1
    ensures |s| >= 1 && |s[|s| - 1].bad| <= 1
  {
    var m :| 0 <= m < |s| && s[m] == c;
    if m < |s| - 1 {
      assert ByLength(s[m]) <= ByLength(s[|s| - 1]);
    }
  }

  lemma CatchAllLastRemoves(rules: seq<Rule>, s: string)
    requires WellFormed(rules) && |rules| >= 1
    requires rules[|rules| - 1] == Rule([Placeholder], "å")
    ensures Placeholder !in ApplyAll(rules, s)
  {
    var n := |rules| - 1;
    assert rules == rules[..n] + [rules[n]];
    assert WellFormed(rules[..n]);
    ApplyAllSnoc(rules[..n], rules[n], s);
    ReplaceCharRemoves(ApplyAll(rules[..n], s), Placeholder, "å");
  }

  /** After the rule loop no placeholder remains (the check of lines 164-169 finds none). */
  lemma NoPlaceholderRemainsIn(d: seq<Rule>, s: string)
    requires GoodTable(d)
    ensures WellFormed(SortBy(d, ByLength))
    ensures Placeholder !in ApplyAll(SortBy(d, ByLength), s)
  {
    SortChecked(d);
    CatchAllLast(d);
    CatchAllLastRemoves(SortBy(d, ByLength), s);
  }

  lemma NoPlaceholderRemains(s: string)
    ensures Placeholder !in Repaired(s)
  {
    ReplacementsGood();
    NoPlaceholderRemainsIn(Replacements, s);
  }

  // ---------------------------------------------------------------------
  // Counting markers: every hit removes one and adds none
  // ---------------------------------------------------------------------

  /** The number of marker characters in `s`. */
  function Markers(s: string): (n: nat)
    ensures n <= |s|
  {
    if s == [] then 0 else (if IsMarker(s[0]) then 1 else 0) + Markers(s[1..])
  }

  lemma {:induction false} MarkersConcat(a: string, b: string)
    ensures Markers(a + b) == Markers(a) + Markers(b)
  {
    if a == [] {
      assert a + b == b;
    } else {
      assert (a + b)[1..] == a[1..] + b;
      MarkersConcat(a[1..], b);
    }
  }

  lemma {:induction false} MarkersPositive(s: string)
    requires HasMarker(s)
    ensures Markers(s) >= 1
  {
    if !IsMarker(s[0]) {
      assert HasMarker(s[1..]) by {
        assert s == [s[0]] + s[1..];
      }
      MarkersPositive(s[1..]);
    }
  }

  lemma {:induction false} MarkersNone(s: string)
    requires PlainText(s)
    ensures Markers(s) == 0
  {
    if s != [] {
      assert s[0] < '\U{FFDD}';
      MarkersNone(s[1..]);
    }
  }

  /** Each rewritten occurrence takes at least one marker away. */
  lemma {:induction false} ReplaceMarkers(s: string, p: string, q: string)
    requires HasMarker(p) && PlainText(q)
    ensures Markers(ReplaceAll(s, p, q)) + Count(s, p) <= Markers(s)
    decreases |s|
  {
    if |s| < |p| {
    } else if s[..|p|] == p {
      var rest := s[|p|..];
      ReplaceMarkers(rest, p, q);
      assert s == p + rest;
      MarkersConcat(p, rest);
      MarkersConcat(q, ReplaceAll(rest, p, q));
      MarkersPositive(p);
      MarkersNone(q);
    } else {
      ReplaceMarkers(s[1..], p, q);
      assert s == [s[0]] + s[1..];
      MarkersConcat([s[0]], s[1..]);
      MarkersConcat([s[0]], ReplaceAll(s[1..], p, q));
    }
  }

  lemma {:induction false} ApplyMarkers(rules: seq<Rule>, s: string)
    requires WellFormed(rules) && forall r :: r in rules ==> CheckedEntry(r)
    ensures Markers(ApplyAll(rules, s)) + Hits(rules, s) <= Markers(s)
    decreases |rules|
  {
    if rules != [] {
      assert rules[0] in rules;
      ReplaceMarkers(s, rules[0].bad, rules[0].good);
      assert forall r :: r in rules[1..] ==> r in rules;
      ApplyMarkers(rules[1..], ReplaceAll(s, rules[0].bad, rules[0].good));
    }
  }

  /** The count is zero exactly when the text is unchanged, so it decides the write. */
  lemma HitsIffChangedIn(d: seq<Rule>, s: string)
    requires AllChecked(d)
    ensures WellFormed(SortBy(d, ByLength))
    ensures Hits(SortBy(d, ByLength), s) == 0 <==> ApplyAll(SortBy(d, ByLength), s) == s
  {
    SortChecked(d);
    var rules := SortBy(d, ByLength);
    if Hits(rules, s) == 0 {
      NoHitsUnchanged(rules, s);
    } else {
      ApplyMarkers(rules, s);
    }
  }

  lemma HitsIffChanged(s: string)
    ensures TotalHits(s) == 0 <==> Repaired(s) == s
  {
    ReplacementsChecked();
    HitsIffChangedIn(Replacements, s);
  }

  // ---------------------------------------------------------------------
  // Whole keys get their own value
  // ---------------------------------------------------------------------

  /** No rule sorted before `r` matches inside `r`'s key. */
  lemma EarlierRulesMissKey(d: seq<Rule>, m: int, i: int)
    requires UniqueKeys(d) && 0 <= i < m < |SortBy(d, ByLength)|
    requires Distinct(SortBy(d, ByLength))
    ensures SortBy(d, ByLength)[i].bad != [] ==>
      !Occurs(SortBy(d, ByLength)[m].bad, SortBy(d, ByLength)[i].bad)
  {
    var s := SortBy(d, ByLength);
    LongestFirst(d, i, m);
    if |s[i].bad| > |s[m].bad| {
      ShortHasNoOccurrence(s[m].bad, s[i].bad);
    } else if Occurs(s[m].bad, s[i].bad) {
      SameLengthOccurs(s[m].bad, s[i].bad);
      SortByMembers(d, ByLength);
      SameKeySameEntry(d, s[i], s[m]);
    }
  }

  /** No rule sorted after `r` finds a marker in `r`'s value. */
  lemma LaterRulesMissValue(r: Rule, t: Rule)
    requires CheckedEntry(r) && CheckedEntry(t)
    ensures !Occurs(r.good, t.bad)
  {
    PlainHasNoMarker(r.good);
    var c := if Placeholder in t.bad then Placeholder
             else if '\U{FFDD}' in t.bad then '\U{FFDD}' else '\U{FFFE}';
    MissingCharNoOccurrence(r.good, t.bad, c);
  }

  /** The rules sorted before position `m` leave the key at `m` untouched. */
  lemma EarlierRulesKeepKey(d: seq<Rule>, m: int)
    requires AllChecked(d) && UniqueKeys(d) && Distinct(d) && 0 <= m < |SortBy(d, ByLength)|
    ensures WellFormed(SortBy(d, ByLength)[..m])
    ensures ApplyAll(SortBy(d, ByLength)[..m], SortBy(d, ByLength)[m].bad) == SortBy(d, ByLength)[m].bad
  {
    var s := SortBy(d, ByLength);
    SortChecked(d);
    SortByDistinct(d, ByLength);
    var before := s[..m];
    forall i | 0 <= i < |before|
      ensures !Occurs(s[m].bad, before[i].bad)
    {
      EarlierRulesMissKey(d, m, i);
    }
    ApplyAllNoneOccurs(before, s[m].bad);
  }

  /** The rules sorted after position `m` leave the value at `m` untouched. */
  lemma LaterRulesKeepValue(d: seq<Rule>, m: int)
    requires AllChecked(d) && 0 <= m < |SortBy(d, ByLength)|
    ensures WellFormed(SortBy(d, ByLength)[m + 1..])
    ensures ApplyAll(SortBy(d, ByLength)[m + 1..], SortBy(d, ByLength)[m].good) == SortBy(d, ByLength)[m].good
  {
    var s := SortBy(d, ByLength);
    SortChecked(d);
    var after := s[m + 1..];
    forall i | 0 <= i < |after|
      ensures !Occurs(s[m].good, after[i].bad)
    {
      assert after[i] == s[m + 1 + i];
      LaterRulesMissValue(s[m], after[i]);
    }
    ApplyAllNoneOccurs(after, s[m].good);
  }

  /**
   * A text that is exactly one of the keys becomes exactly its value: no
   * longer or equally long rule that runs before it can match inside it,
   * and no rule after it finds a marker in the value.
   */
  lemma WholeKeyRepairedIn(d: seq<Rule>, r: Rule)
    requires GoodTable(d) && r in d
    ensures WellFormed(SortBy(d, ByLength))
    ensures ApplyAll(SortBy(d, ByLength), r.bad) == r.good
  {
    var s := SortBy(d, ByLength);
    SortChecked(d);
    SortByMembers(d, ByLength);
    var m :| 0 <= m < |s| && s[m] == r;
    var before, after := s[..m], s[m + 1..];
    assert s == before + [r] + after;
    EarlierRulesKeepKey(d, m);
    LaterRulesKeepValue(d, m);
    ApplyAllConcat(before + [r], after, r.bad);
    ApplyAllConcat(before, [r], r.bad);
    ReplaceWhole(r.bad, r.good);
  }

  lemma WholeKeyRepaired(r: Rule)
    requires r in Replacements
    ensures Repaired(r.bad) == r.good
  {
    ReplacementsGood();
    WholeKeyRepairedIn(Replacements, r);
  }

  // ---------------------------------------------------------------------
  // Duplicate keys (lines 14 and 94, 15 and 95, 32 and 60)
  // ---------------------------------------------------------------------

  /** The value of a key first written in lines 13-97 and never again after line 97. */
  lemma LastWriteByLine97(k: string, v: string)
    requires LastValue(LiteralToLine97, k) == Some(v)
    requires forall i :: 0 <= i < |WordsWithAe3| ==> WordsWithAe3[i].bad != k
    requires forall i :: 0 <= i < |WordsWithAringAtBoundary1| ==> WordsWithAringAtBoundary1[i].bad != k
    requires forall i :: 0 <= i < |WordsWithAringAtBoundary2| ==> WordsWithAringAtBoundary2[i].bad != k
    requires forall i :: 0 <= i < |CommonPatterns1| ==> CommonPatterns1[i].bad != k
    requires forall i :: 0 <= i < |CommonPatterns2| ==> CommonPatterns2[i].bad != k
    requires forall i :: 0 <= i < |CatchAll| ==> CatchAll[i].bad != k
    ensures Rule(k, v) in Replacements
  {
    var a := LiteralToLine97;
    LastValueAfter(a, WordsWithAe3, k);
    LastValueAfter(a + WordsWithAe3, WordsWithAringAtBoundary1, k);
    LastValueAfter(a + WordsWithAe3 + WordsWithAringAtBoundary1, WordsWithAringAtBoundary2, k);
    LastValueAfter(a + WordsWithAe3 + WordsWithAringAtBoundary1 + WordsWithAringAtBoundary2, CommonPatterns1, k);
    LastValueAfter(a + WordsWithAe3 + WordsWithAringAtBoundary1 + WordsWithAringAtBoundary2 + CommonPatterns1,
      CommonPatterns2, k);
    LastValueAfter(a + WordsWithAe3 + WordsWithAringAtBoundary1 + WordsWithAringAtBoundary2 + CommonPatterns1
      + CommonPatterns2, CatchAll, k);
    FromLiteralLookup(ReplacementLiteral, k);
    LookupFound(Replacements, k, v);
  }

  /**
   * `'n\ufffdr'` is written at line 14 (når) and again at line 94 (nær):
   * the later value wins, so the placeholder word becomes "nær".
   */
  lemma LowerNaerShadowsNaar()
    ensures Rule("n\U{FFFD}r", "nær") in Replacements
    ensures Repaired("n\U{FFFD}r") == "nær"
  {
    var k := "n\U{FFFD}r";
    assert WordsWithAe2[3].bad[0] != k[0];
    assert WordsWithAe2 == WordsWithAe2[..3] + WordsWithAe2[3..];
    LastValueAfter(WordsWithAe2[..3], WordsWithAe2[3..], k);
    LastValueConcat(WordsWithAring1 + WordsWithAring2 + WordsWithAring3 + WordsWithOslash1
      + WordsWithOslash2 + WordsWithOslash3 + WordsWithOslash4 + WordsWithOslash5
      + WordsWithOslash6 + WordsWithAe1, WordsWithAe2, k);
    LastWriteByLine97(k, "nær");
    WholeKeyRepaired(Rule(k, "nær"));
  }

  /** The same for the capitalised key of lines 15 and 95. */
  lemma UpperNaerShadowsNaar()
    ensures Rule("N\U{FFFD}r", "Nær") in Replacements
    ensures Repaired("N\U{FFFD}r") == "Nær"
  {
    var k := "N\U{FFFD}r";
    LastValueConcat(WordsWithAring1 + WordsWithAring2 + WordsWithAring3 + WordsWithOslash1
      + WordsWithOslash2 + WordsWithOslash3 + WordsWithOslash4 + WordsWithOslash5
      + WordsWithOslash6 + WordsWithAe1, WordsWithAe2, k);
    LastWriteByLine97(k, "Nær");
    WholeKeyRepaired(Rule(k, "Nær"));
  }

  /**
   * `'r\ufffdde'` is written at line 32 (råde) and again at line 60
   * (røde): the later value wins, so the placeholder word is never
   * repaired to "råde".
   */
  lemma RoedeShadowsRaade()
    ensures Rule("r\U{FFFD}de", "røde") in Replacements
    ensures Rule("r\U{FFFD}de", "råde") !in Replacements
    ensures Repaired("r\U{FFFD}de") == "røde"
  {
    var k := "r\U{FFFD}de";
    var before := WordsWithAring1 + WordsWithAring2 + WordsWithAring3 + WordsWithOslash1
      + WordsWithOslash2 + WordsWithOslash3;
    assert WordsWithOslash4 == [WordsWithOslash4[0]] + WordsWithOslash4[1..];
    LastValueAfter([WordsWithOslash4[0]], WordsWithOslash4[1..], k);
    LastValueConcat(before, WordsWithOslash4, k);
    LastValueAfter(before + WordsWithOslash4, WordsWithOslash5, k);
    LastValueAfter(before + WordsWithOslash4 + WordsWithOslash5, WordsWithOslash6, k);
    LastValueAfter(before + WordsWithOslash4 + WordsWithOslash5 + WordsWithOslash6, WordsWithAe1, k);
    LastValueAfter(before + WordsWithOslash4 + WordsWithOslash5 + WordsWithOslash6 + WordsWithAe1, WordsWithAe2, k);
    LastWriteByLine97(k, "røde");
    WholeKeyRepaired(Rule(k, "røde"));
    ReplacementsUniqueKeys();
  }
}
