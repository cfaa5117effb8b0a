/**
 * The suggestions of the metadata audit: a shorter title (a known suffix
 * removed, then a cut at a separator, else a hard cut with "..."), a
 * shorter description (cut after the last full stop or before the last
 * comma in range), and the two auto-fix verdicts the report records.
 */
module MetaAudit {
  import opened Chars
  import opened Strings
  import opened JsStrings
  import opened MetaShared

  /** The suffixes `suggestShorterTitle` tries, in its order. */
  const AuditSuffixList: seq<string> := [
    " | Kiropraktor Mads Finstad",
    " | Kiropraktor Majorstua",
    " | Klinikk for alle",
    " | Mads Finstad Kiropraktor",
    " | Chiropractor Oslo",
    " | Chiropractor Mads Finstad",
    " - Kiropraktor Mads Finstad",
    " - Kiropraktor Majorstua",
    " - Klinikk for alle"
  ]

  /** The index of the first occurrence of `sep`, when it lies strictly between 30 and 65. */
  predicate CutsAt(s: string, sep: string)
  {
    30 < IndexOf(s, sep) < 65
  }

  /**
   * A title still over 70 characters is cut before its first " | " when
   * that lies in range, else before its first " - " when that does.
   */
  function SeparatorCut(s: string): (r: string)
    ensures |r| <= |s| && r == s[..|r|]
    ensures CutsAt(s, " | ") ==> |r| == IndexOf(s, " | ")
    ensures !CutsAt(s, " | ") && CutsAt(s, " - ") ==> |r| == IndexOf(s, " - ")
    ensures !CutsAt(s, " | ") && !CutsAt(s, " - ") ==> r == s
    ensures r != s ==> 30 < |r| < 65 && (OccursAt(s, " | ", |r|) || OccursAt(s, " - ", |r|))
  {
    var pipeIdx := IndexOf(s, " | ");
    var dashIdx := IndexOf(s, " - ");
    if 30 < pipeIdx < 65 then s[..pipeIdx]
    else if 30 < dashIdx < 65 then s[..dashIdx]
    else s
  }

  /** What `suggestShorterTitle` returns, for a given suffix list. */
  function SuggestedTitleWith(title: string, suffixes: seq<string>): string
  {
    var s := Stripped(title, suffixes);
    var t := if |s| > TitleLimit then SeparatorCut(s) else s;
    if |t| <= TitleLimit then t else title[..67] + "..."
  }

  /** What `suggestShorterTitle` returns. */
  function SuggestedTitle(title: string): string
  {
    SuggestedTitleWith(title, AuditSuffixList)
  }

  /** `suggestShorterTitle`, with its suffix loop. */
  method SuggestShorterTitle(title: string) returns (r: string)
    ensures r == SuggestedTitle(title)
  {
    var shortened := StripFirstSuffix(title, AuditSuffixList);
    if |shortened| > TitleLimit {
      var pipeIdx := IndexOf(shortened, " | ");
      var dashIdx := IndexOf(shortened, " - ");
      if 30 < pipeIdx < 65 {
        shortened := shortened[..pipeIdx];
      } else if 30 < dashIdx < 65 {
        shortened := shortened[..dashIdx];
      }
    }
    r := if |shortened| <= TitleLimit then shortened else title[..67] + "...";
  }

  /**
   * The suggested title is never over 70 characters: it is a prefix of the
   * title, or the first 67 characters followed by "...".
   */
  lemma SuggestedTitleShape(title: string, suffixes: seq<string>)
    ensures |SuggestedTitleWith(title, suffixes)| <= TitleLimit
    ensures SuggestedTitleWith(title, suffixes) == title[..|SuggestedTitleWith(title, suffixes)|]
      || (|title| > TitleLimit && SuggestedTitleWith(title, suffixes) == title[..67] + "...")
  {
    var s := Stripped(title, suffixes);
    if |s| > TitleLimit {
      var t := SeparatorCut(s);
      assert t == s[..|t|];
      assert t == title[..|t|];
    }
  }

  /** `canAutoFix` of a title report: the suggestion fits and differs from the title. */
  predicate TitleCanAutoFix(title: string)
  {
    |SuggestedTitle(title)| <= TitleLimit && SuggestedTitle(title) != title
  }

  /** For every title the audit reports as too long, the verdict is "can auto-fix". */
  lemma LongTitleAlwaysFixable(title: string)
    requires |title| > TitleLimit
    ensures TitleCanAutoFix(title)
  {
    SuggestedTitleShape(title, AuditSuffixList);
  }

  /** The last index at which `suggestShorterDescription` looks for ". " and ", ". */
  const SearchFrom: nat := 155

  /**
   * Where `suggestShorterDescription` cuts a long description: just after
   * the full stop of the last ". " at an index above 100, else before the
   * last ", " at an index above 120, else at 160.
   */
  function DescriptionCutoff(desc: string): (cutoff: nat)
    requires |desc| > DescriptionLimit
    ensures cutoff <= DescriptionLimit
    ensures LastIndexOf(desc, ". ", SearchFrom) > 100 ==> cutoff == LastIndexOf(desc, ". ", SearchFrom) + 1 && desc[cutoff - 1] == '.'
    ensures LastIndexOf(desc, ". ", SearchFrom) <= 100 && LastIndexOf(desc, ", ", SearchFrom) > 120 ==>
      cutoff == LastIndexOf(desc, ", ", SearchFrom) && desc[cutoff] == ','
    ensures LastIndexOf(desc, ". ", SearchFrom) <= 100 && LastIndexOf(desc, ", ", SearchFrom) <= 120 ==> cutoff == DescriptionLimit
  {
    var lastPeriod := LastIndexOf(desc, ". ", SearchFrom);
    var lastComma := LastIndexOf(desc, ", ", SearchFrom);
    if lastPeriod > 100 then
      assert desc[lastPeriod..lastPeriod + 2] == ". ";
      assert desc[lastPeriod] == desc[lastPeriod..lastPeriod + 2][0];
      lastPeriod + 1
    else if lastComma > 120 then
      assert desc[lastComma..lastComma + 2] == ", ";
      assert desc[lastComma] == desc[lastComma..lastComma + 2][0];
      lastComma
    else DescriptionLimit
  }

  /** What `suggestShorterDescription` returns. */
  function SuggestedDescription(desc: string): string
  {
    if |desc| <= DescriptionLimit then desc else Trim(desc[..DescriptionCutoff(desc)])
  }

  /**
   * Trimming a text that ends in a non-space character keeps that
   * character last and removes only leading space.
   */
  lemma TrimKeepsLast(u: string)
    requires u != [] && !IsTrimSpace(u[|u| - 1])
    ensures var r := Trim(u);
            LeadingSpace(u) + |r| == |u| && r != [] && r[|r| - 1] == u[|u| - 1]
  {
    TrimDropsOnlySpace(u);
    var a := LeadingSpace(u);
    var r := Trim(u);
    assert a + |r| == |u|;
    assert a < |u|;
    assert r[|r| - 1] == u[a + |r| - 1];
  }

  /** Trimming a prefix of `desc` leaves a slice of `desc` that keeps a last non-space character. */
  lemma TrimmedPrefix(desc: string, cutoff: nat)
    requires cutoff <= |desc|
    ensures var r := Trim(desc[..cutoff]);
            var lead := LeadingSpace(desc[..cutoff]);
            lead + |r| <= cutoff && r == desc[lead..lead + |r|]
            && (0 < cutoff && !IsTrimSpace(desc[cutoff - 1]) ==> r != [] && r[|r| - 1] == desc[cutoff - 1])
  {
    var u := desc[..cutoff];
    var r := Trim(u);
    var lead := LeadingSpace(u);
    assert u[lead..lead + |r|] == desc[lead..lead + |r|];
    if 0 < cutoff && !IsTrimSpace(desc[cutoff - 1]) {
      assert u[cutoff - 1] == desc[cutoff - 1];
      TrimKeepsLast(u);
    }
  }

  /**
   * The suggested description is at most 160 characters long: the
   * description itself when it fits, else a trimmed prefix of it, which
   * ends in the full stop when the cut was made after one.
   */
  lemma SuggestedDescriptionShape(desc: string)
    ensures |SuggestedDescription(desc)| <= DescriptionLimit
    ensures |desc| <= DescriptionLimit ==> SuggestedDescription(desc) == desc
    ensures |desc| > DescriptionLimit ==>
      var cutoff := DescriptionCutoff(desc);
      var r := SuggestedDescription(desc);
      var lead := LeadingSpace(desc[..cutoff]);
      lead + |r| <= cutoff && r == desc[lead..lead + |r|]
      && (LastIndexOf(desc, ". ", SearchFrom) > 100 ==> r != [] && r[|r| - 1] == '.')
  {
    if |desc| > DescriptionLimit {
      TrimmedPrefix(desc, DescriptionCutoff(desc));
    }
  }

  /** `canAutoFix` of a description report: the suggestion is between 70 and 160 characters long. */
  predicate DescriptionCanAutoFix(desc: string)
  {
    70 <= |SuggestedDescription(desc)| <= DescriptionLimit
  }

  /** The upper bound of the description verdict always holds, so only the lower one decides. */
  lemma DescriptionFixableIff(desc: string)
    ensures DescriptionCanAutoFix(desc) <==> |SuggestedDescription(desc)| >= 70
  {
    SuggestedDescriptionShape(desc);
  }
}
