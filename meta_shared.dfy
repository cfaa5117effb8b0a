/**
 * What the two page-metadata scripts share: the length limits for titles
 * and descriptions, and the suffix loop both run over a title, which tries
 * the list in order, cuts off the first suffix the title ends with,
 * ignoring case, and then stops.
 */
module MetaShared {
  import opened Chars
  import opened JsStrings

  /** The longest title either script accepts. */
  const TitleLimit: nat := 70
  /** The longest description either script accepts. */
  const DescriptionLimit: nat := 160

  /** The position in `suffixes` of the first one `s` ends with, ignoring case, or |suffixes| when none does. */
  function FirstSuffix(s: string, suffixes: seq<string>): (k: nat)
    ensures k <= |suffixes|
    ensures k < |suffixes| ==> EndsWithFolded(s, suffixes[k])
    ensures forall j :: 0 <= j < k ==> !EndsWithFolded(s, suffixes[j])
    decreases |suffixes|
  {
    if suffixes == [] then 0
    else if EndsWithFolded(s, suffixes[0]) then 0
    else 1 + FirstSuffix(s, suffixes[1..])
  }

  /** `s` with its first matching suffix cut off; `s` itself when no suffix matches. */
  function Stripped(s: string, suffixes: seq<string>): (r: string)
    ensures |r| <= |s| && r == s[..|r|]
    ensures FirstSuffix(s, suffixes) < |suffixes| ==> |r| + |suffixes[FirstSuffix(s, suffixes)]| == |s|
    ensures FirstSuffix(s, suffixes) == |suffixes| ==> r == s
  {
    var k := FirstSuffix(s, suffixes);
    if k < |suffixes| then s[..|s| - |suffixes[k]|] else s
  }

  /** Cutting off a suffix removes exactly text that equals it up to case. */
  lemma StrippedRemovesSuffix(s: string, suffixes: seq<string>)
    requires FirstSuffix(s, suffixes) < |suffixes|
    ensures var t := s[|Stripped(s, suffixes)|..];
      s == Stripped(s, suffixes) + t && Lower(t) == Lower(suffixes[FirstSuffix(s, suffixes)])
  {
    var k := FirstSuffix(s, suffixes);
    var r := Stripped(s, suffixes);
    var t := s[|r|..];
    assert s == r + t;
    forall i | 0 <= i < |t|
      ensures Lower(t)[i] == Lower(suffixes[k])[i]
    {
      assert t[i] == s[|s| - |suffixes[k]| + i];
    }
  }

  /** The loop `for (const suffix of suffixes) { if (lower-cased endsWith) { slice; break; } }`. */
  method StripFirstSuffix(s: string, suffixes: seq<string>) returns (r: string)
    ensures r == Stripped(s, suffixes)
  {
    r := s;
    var i := 0;
    while i < |suffixes|
      invariant 0 <= i <= |suffixes|
      invariant forall j :: 0 <= j < i ==> !EndsWithFolded(s, suffixes[j])
      invariant r == s
      decreases |suffixes| - i
    {
      var suffix := suffixes[i];
      var lowered := Lower(r);
      if |suffix| <= |r| && lowered[|r| - |suffix|..] == Lower(suffix) {
        EndsWithFoldedIsLower(s, suffix);
        r := r[..|r| - |suffix|];
        break;
      }
      if |suffix| <= |r| {
        EndsWithFoldedIsLower(s, suffix);
      }
      i := i + 1;
    }
  }
}
