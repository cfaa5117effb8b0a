/**
 * website/scripts/fix-encoding-v2.js: repairs Norwegian words (and three
 * CSS fragments) in which `a`, `o`, `ø` or `æ` was corrupted, with the
 * `fixes` array of lines 10-70 run by the shared split/join loop. Unlike
 * the dictionary of the Python fixer, the pairs run in array order, not
 * longest first.
 */
module EncodingFixJsV2 {
  import opened Strings
  import opened Rewrite
  import SplitJoinFix

  /** Lines 12-19. */
  const Lines12To19: seq<Rule> := [
    Rule("fårste", "første"),
    Rule("Fårste", "Første"),
    Rule("hår ", "har "),
    Rule("hår.", "har."),
    Rule("hår,", "har,"),
    Rule("vår ", "var "),
    Rule("vår.", "var."),
    Rule("vår,", "var,")
  ]

  /** Lines 20-27. */
  const Lines20To27: seq<Rule> := [
    Rule("klært", "klart"),
    Rule("nådvendig", "nødvendig"),
    Rule("grøder", "grader"),
    Rule("gråd ", "grad "),
    Rule("gråd.", "grad."),
    Rule("gråd,", "grad,"),
    Rule("Gråd", "Grad"),
    Rule("låpet", "løpet")
  ]

  /** Lines 28-35. */
  const Lines28To35: seq<Rule> := [
    Rule("stårter", "starter"),
    Rule("vårierer", "varierer"),
    Rule("åk ", "øk "),
    Rule("åkning", "økning"),
    Rule("Fåkus", "Fokus"),
    Rule("fåkus", "fokus"),
    Rule("tilnårming", "tilnærming"),
    Rule("faktårer", "faktorer")
  ]

  /** Lines 36-43. */
  const Lines36To43: seq<Rule> := [
    Rule("forlåp", "forløp"),
    Rule("forklærer", "forklarer"),
    Rule("forklært", "forklart"),
    Rule("misforstøtt", "misforstått"),
    Rule("dislåkasjon", "dislokasjon"),
    Rule("blåkader", "blokader"),
    Rule("grådvis", "gradvis"),
    Rule("fårlig", "farlig")
  ]

  /** Lines 44-51. */
  const Lines44To51: seq<Rule> := [
    Rule("tår ", "tar "),
    Rule("værer", "varer"),
    Rule("advårsel", "advarsel"),
    Rule("Vedværende", "Vedvarende"),
    Rule("vedværende", "vedvarende"),
    Rule("åre ", "øre "),
    Rule("åyne", "øyne"),
    Rule("Blåtvevsbehandling", "Bløtvevsbehandling")
  ]

  /** Lines 52-59. */
  const Lines52To59: seq<Rule> := [
    Rule("blåtvevsbehandling", "bløtvevsbehandling"),
    Rule("nakkefleksårene", "nakkefleksorene"),
    Rule("kiropraktåren", "kiropraktoren"),
    Rule("Børnsley", "Barnsley"),
    Rule("erfåring", "erfaring"),
    Rule("måter", "møter"),
    Rule("fårsterket", "forsterket"),
    Rule("smerseoppfattelse", "smerteoppfattelse")
  ]

  /** Lines 60-66. */
  const Lines60To66: seq<Rule> := [
    Rule("hovedørtikkel", "hovedartikkel"),
    Rule("Hovedørtikkel", "Hovedartikkel"),
    Rule("vår(--", "var(--"),
    Rule("border-rådius", "border-radius"),
    Rule("mårgin", "margin")
  ]

  /** The `fixes` array in order. */
  const Fixes: seq<Rule> := Lines12To19 + Lines20To27 + Lines28To35 + Lines36To43 + Lines44To51 + Lines52To59 + Lines60To66

  /**
   * Every bad string but one carries a corrupted letter å, ø or æ; the
   * exception, line 59, is a misspelling.
   */
  predicate Corrupted(bad: string)
  {
    'å' in bad || 'ø' in bad || 'æ' in bad || bad == "smerseoppfattelse"
  }

  predicate AllCorrupted(rules: seq<Rule>)
  {
    forall i :: 0 <= i < |rules| ==> Corrupted(rules[i].bad)
  }

  lemma CorruptedConcat(a: seq<Rule>, b: seq<Rule>)
    requires AllCorrupted(a) && AllCorrupted(b)
    ensures AllCorrupted(a + b)
  {
    forall i | 0 <= i < |a + b|
      ensures Corrupted((a + b)[i].bad)
    {
      if i < |a| {
        assert (a + b)[i] == a[i];
      } else {
        assert (a + b)[i] == b[i - |a|];
      }
    }
  }

  lemma CorruptedNonEmpty(rules: seq<Rule>)
    requires AllCorrupted(rules)
    ensures WellFormed(rules)
  {
    forall i | 0 <= i < |rules|
      ensures rules[i].bad != []
    {
      assert Corrupted(rules[i].bad);
    }
  }

  lemma Lines12To19Corrupted()
    ensures AllCorrupted(Lines12To19)
  {
  }

  lemma Lines20To27Corrupted()
    ensures AllCorrupted(Lines20To27)
  {
  }

  lemma Lines28To35Corrupted()
    ensures AllCorrupted(Lines28To35)
  {
  }

  lemma Lines36To43Corrupted()
    ensures AllCorrupted(Lines36To43)
  {
  }

  lemma Lines44To51Corrupted()
    ensures AllCorrupted(Lines44To51)
  {
  }

  lemma Lines52To59Corrupted()
    ensures AllCorrupted(Lines52To59)
  {
  }

  lemma Lines60To66Corrupted()
    ensures AllCorrupted(Lines60To66)
  {
  }

  lemma FixesCorrupted()
    ensures AllCorrupted(Fixes) && WellFormed(Fixes)
  {
    Lines12To19Corrupted();
    Lines20To27Corrupted();
    Lines28To35Corrupted();
    Lines36To43Corrupted();
    Lines44To51Corrupted();
    Lines52To59Corrupted();
    Lines60To66Corrupted();
    CorruptedConcat(Lines12To19, Lines20To27);
    CorruptedConcat(Lines12To19 + Lines20To27, Lines28To35);
    CorruptedConcat(Lines12To19 + Lines20To27 + Lines28To35, Lines36To43);
    CorruptedConcat(Lines12To19 + Lines20To27 + Lines28To35 + Lines36To43, Lines44To51);
    CorruptedConcat(Lines12To19 + Lines20To27 + Lines28To35 + Lines36To43 + Lines44To51, Lines52To59);
    CorruptedConcat(Lines12To19 + Lines20To27 + Lines28To35 + Lines36To43 + Lines44To51 + Lines52To59, Lines60To66);
    CorruptedNonEmpty(Fixes);
  }

  /** The text `fixFile` would write for `content`, if it differs. */
  function Fixed(content: string): string
  {
    FixesCorrupted();
    ApplyAll(Fixes, content)
  }

  /** `fixFile` (lines 88-101): the repaired text, and whether it is written. */
  method FixFile(content: string) returns (result: string, written: bool)
    ensures result == Fixed(content)
    ensures written <==> result != content
  {
    FixesCorrupted();
    result, written := SplitJoinFix.RunFixes(Fixes, content);
  }

  /**
   * Text without å, ø and æ, and without the misspelling of line 59,
   * contains no bad string: it is returned as it is and not written.
   */
  lemma CleanTextUntouched(content: string)
    requires 'å' !in content && 'ø' !in content && 'æ' !in content
    requires !Occurs(content, "smerseoppfattelse")
    ensures Fixed(content) == content
  {
    FixesCorrupted();
    forall i | 0 <= i < |Fixes|
      ensures !Occurs(content, Fixes[i].bad)
    {
      var bad := Fixes[i].bad;
      assert Corrupted(bad);
      if 'å' in bad {
        MissingCharNoOccurrence(content, bad, 'å');
      } else if 'ø' in bad {
        MissingCharNoOccurrence(content, bad, 'ø');
      } else if 'æ' in bad {
        MissingCharNoOccurrence(content, bad, 'æ');
      }
    }
    ApplyAllNoneOccurs(Fixes, content);
  }
}
