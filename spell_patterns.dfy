/**
 * The pattern table of the Norwegian spellchecker: 205 entries, each a
 * pattern, the text that replaces a match and a short description, in
 * table order. Every pattern is one of a few shapes, built by the
 * functions below, whose results are checked once to consume at least one
 * character, to have delimited runs and to be matched case-insensitively.
 */
module SpellPatterns {
  import opened WordMatch
  import opened Chars

  /** One table entry: pattern, replacement and description. */
  datatype Entry = Entry(pattern: seq<Token>, replacement: string, description: string)

  /**
   * What every entry of the table satisfies: a match consumes at least one
   * character, runs are delimited (so the greedy matcher is exact), the
   * pattern text does not begin with a backslash followed by an upper-case
   * letter (so the spellchecker matches it ignoring case), and the
   * replacement is not empty.
   */
  predicate EntryOk(e: Entry)
  {
    MinWidth(e.pattern) > 0 && Delimited(e.pattern) && PlainLead(e.pattern) && e.replacement != []
  }

  /** A table entry. */
  type Pattern = e: Entry | EntryOk(e) witness Entry([Lit("a")], "a", "")

  /** `\bw\b`: the whole word `w`. */
  function Word(w: string, r: string, d: string): Pattern
    requires w != [] && w[0] != '\\' && r != []
  {
    var p := [Boundary, Lit(w), Boundary];
    assert p[1..] == [Lit(w), Boundary] && p[1..][1..] == [Boundary] && [Boundary][1..] == [];
    assert MinWidth(p) > 0 && Delimited(p) && PlainLead(p);
    Entry(p, r, d)
  }

  /** `t`: the literal text `t` anywhere. */
  function Phrase(t: string, r: string, d: string): Pattern
    requires t != [] && t[0] != '\\' && r != []
  {
    var p := [Lit(t)];
    assert p[1..] == [];
    assert MinWidth(p) > 0 && Delimited(p) && PlainLead(p);
    Entry(p, r, d)
  }

  /** `t\b`: the text `t` at the end of a word. */
  function WordEnd(t: string, r: string, d: string): Pattern
    requires t != [] && t[0] != '\\' && r != []
  {
    var p := [Lit(t), Boundary];
    assert p[1..] == [Boundary] && [Boundary][1..] == [];
    assert MinWidth(p) > 0 && Delimited(p) && PlainLead(p);
    Entry(p, r, d)
  }

  /** `\bt`: the text `t` at the start of a word. */
  function WordStart(t: string, r: string, d: string): Pattern
    requires t != [] && t[0] != '\\' && r != []
  {
    var p := [Boundary, Lit(t)];
    assert p[1..] == [Lit(t)] && [Lit(t)][1..] == [];
    assert MinWidth(p) > 0 && Delimited(p) && PlainLead(p);
    Entry(p, r, d)
  }

  /** `(\d+)\s+w\b`: a number, white space and the word `w`,
   *  which starts with a lower-case ASCII letter. */
  function CountWord(w: string, r: string, d: string): Pattern
    requires w != [] && 'a' <= w[0] <= 'z' && r != []
  {
    assert ToLower(w[0]) == w[0] && !InClass(w[0], Space);
    var p := [Run(Digit), Run(Space), Lit(w), Boundary];
    assert p[1..] == [Run(Space), Lit(w), Boundary] && p[1..][1..] == [Lit(w), Boundary];
    assert p[1..][1..][1..] == [Boundary] && [Boundary][1..] == [];
    assert Delimited([Lit(w), Boundary]);
    assert Excludes(Space, [Lit(w), Boundary]) && Delimited(p[1..]);
    assert MinWidth(p) > 0 && Delimited(p) && PlainLead(p);
    Entry(p, r, d)
  }

  /** `(\d+)t\b`: a number directly followed by the word ending `t`,
   *  which starts with a hyphen. */
  function CountSuffix(t: string, r: string, d: string): Pattern
    requires t != [] && t[0] == '-' && r != []
  {
    assert ToLower(t[0]) == t[0] && !InClass(t[0], Digit);
    var p := [Run(Digit), Lit(t), Boundary];
    assert p[1..] == [Lit(t), Boundary] && p[1..][1..] == [Boundary] && [Boundary][1..] == [];
    assert MinWidth(p) > 0 && Delimited(p) && PlainLead(p);
    Entry(p, r, d)
  }

  /** `\bves\btibulaer\b`: a boundary inside a word, which nothing can match. */
  const VesTibulaer: Pattern := Entry([Boundary, Lit("ves"), Boundary, Lit("tibulaer"), Boundary], "vestibulær", "vestibular")

  /** `(\d+)\s+ar\b`: a number, white space and "ar"; the replacement refers to the number as group 1. */
  const YearsAfterNumber: Pattern := CountWord("ar", "\\1 år", "X years")

  /** `\bSvaert\b` and `\bsvaert\b`: two entries that differ only in case. */
  const SvaertUpper: Pattern := Word("Svaert", "Svært", "very")
  const SvaertLower: Pattern := Word("svaert", "svært", "very")

  /** The entries at website/scripts/python/norwegian-spellcheck.py:30-49. */
  const Part01: seq<Pattern> := [
    Phrase("mulig a:", "mulig å:", "possible to:"),
    Phrase("mulig a ", "mulig å ", "possible to"),
    Phrase("viktig a ", "viktig å ", "important to"),
    Phrase("vanskelig a ", "vanskelig å ", "difficult to"),
    Phrase("lett a ", "lett å ", "easy to"),
    Phrase("bedre a ", "bedre å ", "better to"),
    Phrase("begynne a ", "begynne å ", "begin to"),
    Phrase("fortsette a ", "fortsette å ", "continue to"),
    Phrase("prove a ", "prøve å ", "try to"),
    Phrase("unnga a ", "unngå å ", "avoid to"),
    Phrase("slutte a ", "slutte å ", "stop to"),
    Phrase("anbefale a ", "anbefale å ", "recommend to"),
    Word("miljoer", "miljøer", "environments"),
    Word("miljo", "miljø", "environment"),
    Word("Miljo", "Miljø", "Environment"),
    Word("lare", "lære", "learn")
  ]

  /** The entries at website/scripts/python/norwegian-spellcheck.py:50-71. */
  const Part02: seq<Pattern> := [
    Word("Lare", "Lære", "Learn"),
    Word("larer", "lærer", "learns/teacher"),
    Word("larere", "lærere", "teachers"),
    Word("lart", "lært", "learned"),
    Word("forsta", "forstå", "understand"),
    Word("Forsta", "Forstå", "Understand"),
    Word("forstar", "forstår", "understands"),
    Word("forstatt", "forstått", "understood"),
    Word("oppsoke", "oppsøke", "seek out"),
    Word("Oppsoke", "Oppsøke", "Seek out"),
    Word("oppsok", "oppsøk", "seek"),
    Word("Opsok", "Oppsøk", "Seek"),
    Word("sekundare", "sekundære", "secondary"),
    Word("vestibulare", "vestibulære", "vestibular"),
    Word("Vestibulare", "Vestibulære", "Vestibular"),
    VesTibulaer
  ]

  /** The entries at website/scripts/python/norwegian-spellcheck.py:74-91. */
  const Part03: seq<Pattern> := [
    Phrase("nær det Utføres", "når det utføres", "when performed"),
    Phrase("nær det utføres", "når det utføres", "when performed"),
    Word("oppnær", "oppnår", "achieve"),
    Word("Oppnær", "Oppnår", "Achieve"),
    Word("jegse", "vise", "show"),
    Word("jegses", "vises", "is shown"),
    Word("Fa hjelp", "Få hjelp", "get help"),
    Word("oresus", "øresus", "tinnitus"),
    Word("Oresus", "Øresus", "Tinnitus"),
    Word("oresymptomer", "øresymptomer", "ear symptoms"),
    Word("Oresymptomer", "Øresymptomer", "Ear symptoms"),
    Word("oresmerter", "øresmerter", "ear pain"),
    Word("Oresmerter", "Øresmerter", "Ear pain"),
    Word("horselstap", "hørselstap", "hearing loss"),
    Word("Horselstap", "Hørselstap", "Hearing loss"),
    Word("ore-nese-hals", "øre-nese-hals", "ENT")
  ]

  /** The entries at website/scripts/python/norwegian-spellcheck.py:92-109. */
  const Part04: seq<Pattern> := [
    Word("Ore-nese-hals", "Øre-nese-hals", "ENT"),
    Word("Pa en", "På en", "on a"),
    Word("ovre", "øvre", "upper"),
    Word("Ovre", "Øvre", "Upper"),
    Word("apner", "åpner", "opens"),
    Word("Apner", "Åpner", "Opens"),
    WordEnd(" ore", " øre", "ear"),
    Word("tett ore", "tett øre", "blocked ear"),
    Word("Ifolge", "Ifølge", "according to"),
    Word("ifolge", "ifølge", "according to"),
    SvaertUpper,
    SvaertLower,
    Word("svert", "svært", "very"),
    Word("Svert", "Svært", "very"),
    Word("oyet", "øyet", "the eye"),
    Word("oyene", "øynene", "the eyes")
  ]

  /** The entries at website/scripts/python/norwegian-spellcheck.py:110-125. */
  const Part05: seq<Pattern> := [
    Word("noytral", "nøytral", "neutral"),
    Word("Noytral", "Nøytral", "Neutral"),
    Word("Sekundaer", "Sekundær", "secondary"),
    Word("sekundaer", "sekundær", "secondary"),
    Word("Sekundaere", "Sekundære", "secondary (plural)"),
    Word("sekundaere", "sekundære", "secondary (plural)"),
    Word("Primaer", "Primær", "primary"),
    Word("laret", "låret", "the thigh"),
    Word("hoeyt", "høyt", "high"),
    Word("toeying", "tøying", "stretching"),
    Word("toeye", "tøye", "stretch"),
    Word("oeker", "øker", "increases"),
    Word("boeye", "bøye", "bend"),
    Word("moeter", "møter", "meets"),
    Word("toey", "tøy", "stretch"),
    Word("foelelse", "følelse", "feeling")
  ]

  /** The entries at website/scripts/python/norwegian-spellcheck.py:126-141. */
  const Part06: seq<Pattern> := [
    Word("fores", "føres", "is led"),
    Word("losne", "løsne", "loosen"),
    Word("malet", "målet", "the goal"),
    Word("Malet", "Målet", "The goal"),
    Word("folger", "følger", "follows"),
    Word("Foller", "Følger", "Follows"),
    Word("palitelig", "pålitelig", "reliable"),
    Word("Palitelig", "Pålitelig", "Reliable"),
    Word("utfores", "utføres", "is performed"),
    Word("Utfores", "Utføres", "Is performed"),
    Word("vaer", "vær", "be (imperative)"),
    Word("Vaer", "Vær", "Be (imperative)"),
    Word("hoyeste", "høyeste", "highest"),
    Word("Hoyeste", "Høyeste", "Highest"),
    WordEnd(">Ga til", ">Gå til", "Go to (link)"),
    Word("blottvevet", "bløtvevet", "soft tissue")
  ]

  /** The entries at website/scripts/python/norwegian-spellcheck.py:142-159. */
  const Part07: seq<Pattern> := [
    Word("blottvev", "bløtvev", "soft tissue"),
    Word("boye", "bøye", "bend"),
    Word("boyer", "bøyer", "bends"),
    Word("boyes", "bøyes", "is bent"),
    Word("boyd", "bøyd", "bent"),
    Word("boyde", "bøyde", "bent (plural)"),
    WordStart("hofteboyer", "hoftebøyer", "hip flexor"),
    Word("boyesenen", "bøyesenen", "flexor tendon"),
    Word("hoye", "høye", "high (plural)"),
    Word("hoyt", "høyt", "high"),
    Word("hoyere", "høyere", "higher"),
    Word("hoyden", "høyden", "the height"),
    Word("Hoye", "Høye", "High (plural)"),
    Word("Hoyest", "Høyest", "Highest"),
    Word("forhoyet", "forhøyet", "elevated"),
    Word("Forhoyet", "Forhøyet", "Elevated")
  ]

  /** The entries at website/scripts/python/norwegian-spellcheck.py:160-175. */
  const Part08: seq<Pattern> := [
    Word("Forhoyede", "Forhøyede", "Elevated (plural)"),
    Word("lose", "løse", "loose"),
    Word("Lose", "Løse", "Loose"),
    Word("losner", "løsner", "loosens"),
    Word("losning", "løsning", "solution"),
    Word("oke", "øke", "increase"),
    Word("oker", "øker", "increases"),
    Word("Oker", "Øker", "Increases"),
    Word("okt", "økt", "increased"),
    Word("Okt", "Økt", "Increased"),
    Word("okter", "økter", "sessions"),
    Word("noye", "nøye", "careful"),
    Word("noyer", "nøyer", "is careful"),
    Word("blodarer", "blodårer", "blood vessels"),
    Word("misnoye", "misnøye", "dissatisfaction"),
    Word("Sok", "Søk", "Search")
  ]

  /** The entries at website/scripts/python/norwegian-spellcheck.py:176-193. */
  const Part09: seq<Pattern> := [
    Word("sovn", "søvn", "sleep"),
    Word("Sovn", "Søvn", "Sleep"),
    Word("stotte", "støtte", "support"),
    Word("storrelse", "størrelse", "size"),
    Word("rodhet", "rødhet", "redness"),
    Word("motes", "møtes", "meet"),
    Word("ryggsoylen", "ryggsøylen", "the spine"),
    Word("skivehoyden", "skivehøyden", "disc height"),
    Word("hjorne", "hjørne", "corner"),
    Word("oret", "øret", "the ear"),
    Word("monster", "mønster", "pattern"),
    Word("monsteret", "mønsteret", "the pattern"),
    Word("gangmonster", "gangmønster", "gait pattern"),
    Word("smertemonster", "smertemønster", "pain pattern"),
    Word("symptommonster", "symptommønster", "symptom pattern"),
    Word("nervemonster", "nervemønster", "nerve pattern")
  ]

  /** The entries at website/scripts/python/norwegian-spellcheck.py:194-211. */
  const Part10: seq<Pattern> := [
    Word("pustemonster", "pustemønster", "breathing pattern"),
    Word("dermatom-monster", "dermatom-mønster", "dermatome pattern"),
    Word("belastningsmonster", "belastningsmønster", "load pattern"),
    Word("tidsmonster", "tidsmønster", "time pattern"),
    Word("hanske-monster", "hanske-mønster", "glove pattern"),
    Word("strompe-hanske-monster", "strømpe-hanske-mønster", "stocking-glove pattern"),
    Word("arsaksmonster", "årsaksmønster", "cause pattern"),
    Word("Stralemonsteret", "Strålemønsteret", "radiation pattern"),
    Word("bukkehorn-monster", "bukkehorn-mønster", "rams horn pattern"),
    Word("arlig", "årlig", "yearly"),
    Word("Arlig", "Årlig", "Yearly"),
    Word("arene", "årene", "the years"),
    Word("arsaken", "årsaken", "the cause"),
    Word("Arsaken", "Årsaken", "The cause"),
    Word("arsak", "årsak", "cause"),
    YearsAfterNumber
  ]

  /** The entries at website/scripts/python/norwegian-spellcheck.py:212-227. */
  const Part11: seq<Pattern> := [
    CountSuffix("-ar", "\\1-år", "X-year"),
    CountSuffix("-ars", "\\1-års", "X-year (genitive)"),
    Word("gar", "går", "goes"),
    Word("sta", "stå", "stand"),
    Word("Sta", "Stå", "Stand"),
    Word("gatt", "gått", "gone"),
    Word("gjennomgatt", "gjennomgått", "gone through"),
    Word("statt", "stått", "stood"),
    Word("nar", "når", "when"),
    Word("Nar", "Når", "When"),
    Word("far", "får", "gets"),
    Word("forer", "fører", "leads"),
    Word("forst", "først", "first"),
    Word("forste", "første", "first"),
    Word("Forste", "Første", "First"),
    Word("storst", "størst", "biggest")
  ]

  /** The entries at website/scripts/python/norwegian-spellcheck.py:228-245. */
  const Part12: seq<Pattern> := [
    Word("hjornesteinen", "hjørnesteinen", "cornerstone"),
    Word("Stralemonsteret", "Strålemønsteret", "radiation pattern"),
    Word("pafolgende", "påfølgende", "following"),
    Word("samarbeidspartnere", "samarbeidspartnere", "partners"),
    Word("malrettet", "målrettet", "targeted"),
    Word("patale", "påtale", "prosecution"),
    Word("sarbar", "sårbar", "vulnerable"),
    Word("sarbart", "sårbart", "vulnerable"),
    Word("vaert", "vært", "been"),
    Word("vaere", "være", "be"),
    Word("naer", "nær", "near"),
    Word("Naer", "Nær", "Near"),
    Word("baer", "bær", "berries"),
    Word("taer", "tær", "toes"),
    Word("haeler", "hæler", "heels"),
    Word("hael", "hæl", "heel")
  ]

  /** The entries at website/scripts/python/norwegian-spellcheck.py:246-258. */
  const Part13: seq<Pattern> := [
    Word("haelhoyde", "hælhøyde", "heel height"),
    Word("laere", "lære", "learn"),
    Word("laerer", "lærer", "teacher/teaches"),
    Word("laerere", "lærere", "teachers"),
    Word("oyebevegelser", "øyebevegelser", "eye movements"),
    Word("oye", "øye", "eye"),
    Word("primaer", "primær", "primary"),
    Word("primaerhelsepersonell", "primærhelsepersonell", "primary healthcare"),
    Word("innebar", "innebær", "entails"),
    Word("innebarer", "innebærer", "entails"),
    Word("naerliggende", "nærliggende", "nearby"),
    Word("saerlig", "særlig", "especially"),
    Word("Saerlig", "Særlig", "Especially")
  ]
  /** The whole table, in the order the spellchecker tries it. */
  const Patterns: seq<Pattern> := Part01 + Part02 + Part03 + Part04 + Part05 + Part06 + Part07 + Part08 + Part09 + Part10 + Part11 + Part12 + Part13

  /**
   * Every pattern of the table is matched ignoring case: the flag test
   * of `find_issues` never yields a case-sensitive pattern.
   */
  lemma AllIgnoreCase(e: Pattern)
    ensures var src := Source(e.pattern);
      src != [] && (src[0] == '\\' ==> |src| >= 2) && IgnoreCaseFlag(src)
  {
    AlwaysIgnoreCase(e.pattern);
  }

  /** The entry `\bves\btibulaer\b` matches nowhere in any text. */
  lemma VesTibulaerNeverMatches(s: string, i: nat, e: nat, ic: bool)
    ensures !Spans(s, i, VesTibulaer.pattern, e, ic)
  {
    var toks := VesTibulaer.pattern;
    var rest := [Lit("ves"), Boundary, Lit("tibulaer")] + [Boundary];
    assert toks[1..] == rest;
    LetterBoundaryLetter(s, 0, "ves", "tibulaer", [Boundary], e, ic);
    forall j: nat
      ensures !Spans(s, j, rest, e, ic)
    {
      LetterBoundaryLetter(s, j, "ves", "tibulaer", [Boundary], e, ic);
    }
  }
}
