/**
 * The third heading pass over a page. Inside `<main>`, with its aside
 * blocks set apart behind a marker, the text is taken line by line: an h4
 * that follows an h2 with no h3 between them becomes an h3. The page is
 * written back only when some line changed.
 */
module HeadingFix {
  import opened Options
  import opened Chars
  import opened Strings
  import opened JsStrings

  // ---------------------------------------------------------------------
  // Heading tags on a line
  // ---------------------------------------------------------------------

  /**
   * `/<hd[\s>]/i` matches at index `i`: `<`, an `h` of either case, the
   * level digit, then white space (the characters `\s` matches, which are
   * those trim removes) or `>`.
   */
  predicate TagAt(line: string, d: char, i: nat)
  {
    i + 3 < |line| && line[i] == '<' && ToLower(line[i + 1]) == 'h' && line[i + 2] == d
    && (IsTrimSpace(line[i + 3]) || line[i + 3] == '>')
  }

  /** The tag of level `d` matches at index `i` or later: the expression's scan from `i`. */
  predicate TagFrom(line: string, d: char, i: nat)
    decreases |line| - i
  {
    i < |line| && (TagAt(line, d, i) || TagFrom(line, d, i + 1))
  }

  /** `/<hd[\s>]/i.test(line)`: the line opens a heading of level `d`. */
  predicate Opens(line: string, d: char)
  {
    TagFrom(line, d, 0)
  }

  /** The scan finds a tag exactly when one matches somewhere from `i` on. */
  lemma {:induction false} TagFromIff(line: string, d: char, i: nat)
    ensures TagFrom(line, d, i) <==> exists k :: i <= k < |line| && TagAt(line, d, k)
    decreases |line| - i
  {
    if i < |line| {
      TagFromIff(line, d, i + 1);
      if exists k :: i <= k < |line| && TagAt(line, d, k) {
        var k :| i <= k < |line| && TagAt(line, d, k);
        assert k == i || (i + 1 <= k < |line| && TagAt(line, d, k));
      }
    }
  }

  /** A line opens a heading of level `d` exactly when the tag matches at some index. */
  lemma OpensIff(line: string, d: char)
    ensures Opens(line, d) <==> exists i :: 0 <= i < |line| && TagAt(line, d, i)
  {
    TagFromIff(line, d, 0);
  }

  /** An orphan h4 line with its opening and closing tags renamed to h3. */
  function ToH3(line: string): string
  {
    ReplaceAllFolded(ReplaceAllFolded(line, "<h4", "<h3"), "</h4>", "</h3>")
  }

  // ---------------------------------------------------------------------
  // The line loop
  // ---------------------------------------------------------------------

  /**
   * The loop's state after some lines: the index of the last h2 line (or
   * -1), whether an h3 counts as seen since then, the lines as they now
   * stand, and the number of conversions.
   */
  datatype Scan = Scan(lastH2: int, hasH3: bool, lines: seq<string>, conversions: nat)

  /** One iteration on line `i`: the h2 test, then the h3 test, then the orphan-h4 test. */
  function Step(st: Scan, i: nat, line: string): Scan
  {
    var lastH2 := if Opens(line, '2') then i else st.lastH2;
    var reset := if Opens(line, '2') then false else st.hasH3;
    var seen := reset || Opens(line, '3');
    if Opens(line, '4') && lastH2 >= 0 && !seen then
      Scan(lastH2, true, st.lines + [ToH3(line)], st.conversions + 1)
    else
      Scan(lastH2, seen, st.lines + [line], st.conversions)
  }

  /** The state after the first `n` lines. */
  function ScanTo(lines: seq<string>, n: nat): (st: Scan)
    requires n <= |lines|
    ensures |st.lines| == n
  {
    if n == 0 then Scan(-1, false, [], 0) else Step(ScanTo(lines, n - 1), n - 1, lines[n - 1])
  }

  /** The lines after the loop. */
  function Converted(lines: seq<string>): (r: seq<string>)
    ensures |r| == |lines|
  {
    ScanTo(lines, |lines|).lines
  }

  /**
   * The loop of `fixFile` over the line array, which it rewrites in place;
   * it returns the number of conversions (the `h4ToH3` statistic).
   */
  method ConvertOrphans(lines: array<string>) returns (conversions: nat)
    modifies lines
    ensures lines[..] == Converted(old(lines[..]))
    ensures conversions == ScanTo(old(lines[..]), lines.Length).conversions
  {
    ghost var orig := lines[..];
    var lastH2Index := -1;
    var hasH3SinceH2 := false;
    conversions := 0;
    for i := 0 to lines.Length
      invariant lines[i..] == orig[i..]
      invariant ScanTo(orig, i) == Scan(lastH2Index, hasH3SinceH2, lines[..i], conversions)
    {
      var line := lines[i];
      assert line == orig[i];
      assert ScanTo(orig, i + 1) == Step(ScanTo(orig, i), i, line);
      if Opens(line, '2') {
        lastH2Index := i;
        hasH3SinceH2 := false;
      }
      if Opens(line, '3') {
        hasH3SinceH2 := true;
      }
      if Opens(line, '4') && lastH2Index >= 0 && !hasH3SinceH2 {
        lines[i] := ToH3(line);
        conversions := conversions + 1;
        hasH3SinceH2 := true;
      }
      assert lines[..i + 1] == lines[..i] + [lines[i]];
    }
    assert lines[..] == lines[..lines.Length];
  }

  // ---------------------------------------------------------------------
  // What the loop converts
  // ---------------------------------------------------------------------

  /** The index of the last of the first `n` lines that opens an h2, or -1. */
  function LastH2(lines: seq<string>, n: nat): (j: int)
    requires n <= |lines|
    ensures -1 <= j < n
    ensures j >= 0 ==> Opens(lines[j], '2')
    ensures forall k :: j < k < n ==> !Opens(lines[k], '2')
  {
    if n == 0 then -1 else if Opens(lines[n - 1], '2') then n - 1 else LastH2(lines, n - 1)
  }

  /**
   * After the first `n` lines an h3 counts as seen when, since the last h2
   * line (that line included), some line opened an h3 or an h4 (the first
   * such h4 having been converted); before any h2, only an h3 counts.
   */
  predicate SeenH3(lines: seq<string>, n: nat)
    requires n <= |lines|
  {
    var j := LastH2(lines, n);
    if j >= 0 then exists k :: j <= k < n && (Opens(lines[k], '3') || Opens(lines[k], '4'))
    else exists k :: 0 <= k < n && Opens(lines[k], '3')
  }

  /**
   * Line `i` holds an orphan h4: it opens an h4, some line up to it opens
   * an h2, and from the last such line through line `i` no line opens an
   * h3 and no earlier line opens an h4.
   */
  predicate OrphanAt(lines: seq<string>, i: nat)
    requires i < |lines|
  {
    var j := LastH2(lines, i + 1);
    Opens(lines[i], '4') && j >= 0
    && (forall k :: j <= k <= i ==> !Opens(lines[k], '3'))
    && (forall k :: j <= k < i ==> !Opens(lines[k], '4'))
  }

  /** The number of orphan h4 lines among the first `n`. */
  function OrphanCount(lines: seq<string>, n: nat): nat
    requires n <= |lines|
  {
    if n == 0 then 0 else OrphanCount(lines, n - 1) + (if OrphanAt(lines, n - 1) then 1 else 0)
  }

  /** The last line decides alone when it opens an h2. */
  lemma StepAtH2(lines: seq<string>, n: nat)
    requires 0 < n <= |lines| && Opens(lines[n - 1], '2')
    ensures LastH2(lines, n) == n - 1
    ensures OrphanAt(lines, n - 1) <==> Opens(lines[n - 1], '4') && !Opens(lines[n - 1], '3')
    ensures SeenH3(lines, n) <==> Opens(lines[n - 1], '3') || Opens(lines[n - 1], '4')
  {
  }

  /** Otherwise the last line extends the section the earlier lines left open. */
  lemma StepInSection(lines: seq<string>, n: nat)
    requires 0 < n <= |lines| && !Opens(lines[n - 1], '2')
    ensures LastH2(lines, n) == LastH2(lines, n - 1)
    ensures OrphanAt(lines, n - 1) <==>
      Opens(lines[n - 1], '4') && LastH2(lines, n - 1) >= 0 && !SeenH3(lines, n - 1) && !Opens(lines[n - 1], '3')
    ensures SeenH3(lines, n) <==>
      SeenH3(lines, n - 1) || Opens(lines[n - 1], '3') || (LastH2(lines, n - 1) >= 0 && Opens(lines[n - 1], '4'))
  {
    var j := LastH2(lines, n - 1);
    var line := lines[n - 1];
    if j >= 0 {
      if OrphanAt(lines, n - 1) {
        forall k | j <= k < n - 1
          ensures !(Opens(lines[k], '3') || Opens(lines[k], '4'))
        {
        }
      }
      if SeenH3(lines, n - 1) {
        var k :| j <= k < n - 1 && (Opens(lines[k], '3') || Opens(lines[k], '4'));
        assert k < n;
      }
      if SeenH3(lines, n) && !Opens(line, '3') && !Opens(line, '4') {
        var k :| j <= k < n && (Opens(lines[k], '3') || Opens(lines[k], '4'));
        assert k < n - 1;
      }
    } else {
      if SeenH3(lines, n) && !Opens(line, '3') {
        var k :| 0 <= k < n && Opens(lines[k], '3');
        assert k < n - 1;
      }
    }
  }

  /** The loop's flags after the first `n` lines are the last h2 index and the seen-h3 flag above. */
  lemma {:induction false} ScanFlags(lines: seq<string>, n: nat)
    requires n <= |lines|
    ensures ScanTo(lines, n).lastH2 == LastH2(lines, n)
    ensures ScanTo(lines, n).hasH3 == SeenH3(lines, n)
  {
    if n > 0 {
      ScanFlags(lines, n - 1);
      if Opens(lines[n - 1], '2') {
        StepAtH2(lines, n);
      } else {
        StepInSection(lines, n);
      }
    }
  }

  /** Line `n - 1` is converted exactly when it holds an orphan h4. */
  lemma StepConverts(lines: seq<string>, n: nat)
    requires 0 < n <= |lines|
    ensures var st := ScanTo(lines, n - 1);
            var line := lines[n - 1];
            OrphanAt(lines, n - 1) <==>
              Opens(line, '4') && (if Opens(line, '2') then n - 1 else st.lastH2) >= 0
              && !((!Opens(line, '2') && st.hasH3) || Opens(line, '3'))
  {
    ScanFlags(lines, n - 1);
    if Opens(lines[n - 1], '2') {
      StepAtH2(lines, n);
    } else {
      StepInSection(lines, n);
    }
  }

  /** What line `i` becomes: renamed to h3 when it holds an orphan h4, else kept. */
  function Expected(lines: seq<string>, i: nat): string
    requires i < |lines|
  {
    if OrphanAt(lines, i) then ToH3(lines[i]) else lines[i]
  }

  /**
   * What the loop computes: every orphan h4 line is renamed to h3, every
   * other line is kept, and the count is the number of orphans.
   */
  lemma {:induction false} ScanToMeaning(lines: seq<string>, n: nat)
    requires n <= |lines|
    ensures ScanTo(lines, n).conversions == OrphanCount(lines, n)
    ensures forall i :: 0 <= i < n ==> ScanTo(lines, n).lines[i] == Expected(lines, i)
  {
    if n > 0 {
      ScanToMeaning(lines, n - 1);
      StepConverts(lines, n);
      var before := ScanTo(lines, n - 1);
      var after := ScanTo(lines, n);
      assert after == Step(before, n - 1, lines[n - 1]);
      assert after.lines == before.lines + [Expected(lines, n - 1)];
      forall i | 0 <= i < n
        ensures after.lines[i] == Expected(lines, i)
      {
        if i < n - 1 {
          assert after.lines[i] == before.lines[i];
        }
      }
    }
  }

  /** Converting an h4 closes its section to further conversions until the next h2. */
  lemma OneOrphanPerSection(lines: seq<string>, i: nat, k: nat)
    requires i < k < |lines| && OrphanAt(lines, i) && OrphanAt(lines, k)
    ensures exists m :: i < m <= k && Opens(lines[m], '2')
  {
    var j := LastH2(lines, k + 1);
    assert !Opens(lines[i], '4') || !(j <= i < k);
    assert i < j;
  }

  // ---------------------------------------------------------------------
  // The page
  // ---------------------------------------------------------------------

  /**
   * The span of the main content that `/<main[^>]*>([\s\S]*?)<\/main>/i`
   * captures: it starts after the first `>` that follows the first `<main`
   * of either case, and ends at the next `</main>` of either case. When
   * that first `<main` has no such `>` or `</main>`, no later one has
   * either, so the expression does not match.
   */
  function MainSpan(content: string): (r: Option<(nat, nat)>)
    ensures r.Some? ==> 0 < r.value.0 <= r.value.1 <= |content|
    ensures r.Some? ==> content[r.value.0 - 1] == '>' && FoldedAt(content, "</main>", r.value.1)
    ensures r.Some? ==> forall k: nat :: r.value.0 <= k < r.value.1 ==> !FoldedAt(content, "</main>", k)
    ensures (forall k: nat :: !FoldedAt(content, "<main", k)) ==> r.None?
  {
    var i := FoldedIndexOf(content, "<main", 0);
    if i < 0 then None
    else
      var g := IndexFrom(content, ">", i + 5);
      if g < 0 then None
      else
        assert content[g..g + 1] == ">";
        var e := FoldedIndexOf(content, "</main>", g + 1);
        if e < 0 then None else Some((g + 1, e))
  }

  /** The text an aside block is replaced with while the lines are analysed. */
  const Marker: string := "<!-- ASIDE_REMOVED -->"

  /**
   * The span of the first block `/<aside[\s\S]*?<\/aside>/i` matches: from
   * the first `<aside` of either case through the next `</aside>`.
   */
  function AsideSpan(m: string): (r: Option<(nat, nat)>)
    ensures r.Some? ==> r.value.0 + 6 <= r.value.1 <= |m| && FoldedAt(m, "<aside", r.value.0)
  {
    var i := FoldedIndexOf(m, "<aside", 0);
    if i < 0 then None
    else
      var e := FoldedIndexOf(m, "</aside>", i + 6);
      if e < 0 then None else Some((i, e + 8))
  }

  /** The main content with every aside block replaced by the marker (`/gi`). */
  function RemoveAsides(m: string): string
  {
    SetApart(m, Marker)
  }

  /** Every aside block, from the left, replaced by `marker`. */
  function SetApart(m: string, marker: string): string
    decreases |m|
  {
    match AsideSpan(m)
    case None => m
    case Some((i, e)) => m[..i] + marker + SetApart(m[e..], marker)
  }

  /** The new main content: the lines of the aside-free content, converted and joined again. */
  function NewMain(mainContent: string): string
  {
    Join(Converted(Split(mainContent, "\n")), "\n")
  }

  /**
   * `content.replace(p, q)` with a string pattern: the first occurrence of
   * `p` is replaced by `q` with its `$` forms expanded.
   */
  function ReplaceFirst(content: string, p: string, q: string): string
  {
    var i := IndexOf(content, p);
    if i < 0 then content
    else content[..i] + Substitute(q, p, content[..i], content[i + |p|..]) + content[i + |p|..]
  }

  /**
   * What `fixFile` writes back, or None when it writes nothing: the main
   * content's first occurrence in the page is replaced by the new main
   * content with the markers deleted.
   */
  function FixedFile(content: string): Option<string>
  {
    match MainSpan(content)
    case None => None
    case Some((a, b)) =>
      var originalMain := content[a..b];
      var mainContent := RemoveAsides(originalMain);
      var newMain := NewMain(mainContent);
      if newMain == mainContent then None
      else Some(ReplaceFirst(content, originalMain, ReplaceAll(newMain, Marker, "")))
  }

  /** The number of conversions `fixFile` counts. */
  function FileConversions(content: string): nat
  {
    match MainSpan(content)
    case None => 0
    case Some((a, b)) =>
      var lines := Split(RemoveAsides(content[a..b]), "\n");
      ScanTo(lines, |lines|).conversions
  }

  /** `fixFile` on the text of a page: what it writes (if anything) and how many h4s it converted. */
  method FixFile(content: string) returns (written: Option<string>, conversions: nat)
    ensures written == FixedFile(content)
    ensures conversions == FileConversions(content)
  {
    written, conversions := None, 0;
    var span := MainSpan(content);
    if span.None? {
      return;
    }
    var (a, b) := span.value;
    var originalMain := content[a..b];
    var mainContent := RemoveAsides(originalMain);
    var parts := Split(mainContent, "\n");
    var lines := new string[|parts|](k requires 0 <= k < |parts| => parts[k]);
    assert lines[..] == parts;
    conversions := ConvertOrphans(lines);
    var newMain := Join(lines[..], "\n");
    if newMain != mainContent {
      written := Some(ReplaceFirst(content, originalMain, ReplaceAll(newMain, Marker, "")));
    }
  }

  /** Joining the lines of a text again gives back the text. */
  lemma JoinSplit(s: string)
    ensures Join(Split(s, "\n"), "\n") == s
  {
    SplitJoinIsReplaceAll(s, "\n", "\n");
    ReplaceBySelf(s, "\n");
  }

  /** A page without a `<main` tag of either case is not written. */
  lemma NoMainNotWritten(content: string)
    requires forall k: nat :: !FoldedAt(content, "<main", k)
    ensures FixedFile(content) == None && FileConversions(content) == 0
  {
  }

  /** No line holds an orphan h4. */
  predicate NoOrphans(lines: seq<string>)
  {
    forall i :: 0 <= i < |lines| ==> !OrphanAt(lines, i)
  }

  /** The lines of the page's main content once its asides are set apart. */
  function MainLines(content: string): seq<string>
    requires MainSpan(content).Some?
  {
    Split(RemoveAsides(content[MainSpan(content).value.0..MainSpan(content).value.1]), "\n")
  }

  /** Main content without an orphan h4 line comes back unchanged from the line pass. */
  lemma NoOrphanKeepsMain(mainContent: string)
    requires NoOrphans(Split(mainContent, "\n"))
    ensures NewMain(mainContent) == mainContent
    ensures ScanTo(Split(mainContent, "\n"), |Split(mainContent, "\n")|).conversions == 0
  {
    var lines := Split(mainContent, "\n");
    ScanToMeaning(lines, |lines|);
    NoOrphanCountZero(lines, |lines|);
    forall i | 0 <= i < |lines|
      ensures Converted(lines)[i] == lines[i]
    {
      assert Expected(lines, i) == lines[i];
    }
    assert Converted(lines) == lines;
    JoinSplit(mainContent);
  }

  /** A page whose main content has no orphan h4 line is not written, and nothing is counted. */
  lemma NoOrphanNotWritten(content: string)
    requires MainSpan(content).Some? && NoOrphans(MainLines(content))
    ensures FixedFile(content) == None && FileConversions(content) == 0
  {
    var (a, b) := MainSpan(content).value;
    NoOrphanKeepsMain(RemoveAsides(content[a..b]));
  }

  lemma {:induction false} NoOrphanCountZero(lines: seq<string>, n: nat)
    requires n <= |lines| && NoOrphans(lines)
    ensures OrphanCount(lines, n) == 0
  {
    if n > 0 {
      NoOrphanCountZero(lines, n - 1);
    }
  }

  // ---------------------------------------------------------------------
  // Keeping the asides
  // ---------------------------------------------------------------------

  /** The aside blocks RemoveAsides replaces by the marker, in order. */
  function AsidesOf(m: string): seq<string>
    decreases |m|
  {
    match AsideSpan(m)
    case None => []
    case Some((i, e)) => [m[i..e]] + AsidesOf(m[e..])
  }

  /** Each `marker` in turn, from the left, replaced by the next of the saved aside blocks. */
  function RestoreAsides(s: string, marker: string, asides: seq<string>): string
    decreases |asides|
  {
    if asides == [] then s
    else
      var i := IndexOf(s, marker);
      if i < 0 then s else s[..i] + asides[0] + RestoreAsides(s[i + |marker|..], marker, asides[1..])
  }

  /**
   * `fixFile` as its comment intends ("restore aside markers"): the same
   * pass, with the markers replaced by the aside blocks they stand for
   * rather than deleted.
   */
  function FixedFileKeepingAsides(content: string): Option<string>
  {
    match MainSpan(content)
    case None => None
    case Some((a, b)) =>
      var originalMain := content[a..b];
      var mainContent := RemoveAsides(originalMain);
      var newMain := NewMain(mainContent);
      if newMain == mainContent then None
      else Some(ReplaceFirst(content, originalMain, RestoreAsides(newMain, Marker, AsidesOf(originalMain))))
  }

  /**
   * `fixFile` with the new main content written as it stands (every `$`
   * in it written twice before the `replace`): the same pass, with no `$`
   * form expanded.
   */
  function FixedFileLiteral(content: string): Option<string>
  {
    match MainSpan(content)
    case None => None
    case Some((a, b)) =>
      var originalMain := content[a..b];
      var mainContent := RemoveAsides(originalMain);
      var newMain := NewMain(mainContent);
      if newMain == mainContent then None
      else Some(ReplaceFirst(content, originalMain, EscapeDollars(ReplaceAll(newMain, Marker, ""))))
  }

  /** A marker whose first character is its only `<`, as the aside marker's is. */
  predicate LoneOpening(marker: string)
  {
    marker != [] && marker[0] == '<' && forall k :: 0 < k < |marker| ==> marker[k] != '<'
  }

  /** The aside marker's only `<` is its first character. */
  lemma MarkerIsLone()
    ensures LoneOpening(Marker)
  {
    assert Marker[0] == '<';
  }

  /** Two occurrences of such a marker never overlap. */
  lemma MarkerFirst(u: string, t: string, marker: string)
    requires LoneOpening(marker) && !Occurs(u, marker)
    ensures NoneStartsBefore(u + marker + t, marker, |u|)
    ensures IndexOf(u + marker + t, marker) == |u|
  {
    var x := u + marker + t;
    assert x[|u|..|u| + |marker|] == marker;
    assert OccursAt(x, marker, |u|);
    forall j | 0 <= j < |u|
      ensures !OccursAt(x, marker, j)
    {
      if j + |marker| <= |u| {
        assert x[j..j + |marker|] == u[j..j + |marker|];
        assert !OccursAt(u, marker, j);
      } else {
        assert x[j..j + |marker|][|u| - j] == x[|u|] == '<';
        assert marker[|u| - j] != '<';
      }
    }
  }

  /** A slice of a slice is a slice of the whole. */
  lemma SliceOfSlice(m: string, i: nat, e: nat, j: nat, n: nat)
    requires i <= e <= |m| && j + n <= e - i
    ensures m[i..e][j..j + n] == m[i + j..i + j + n]
  {
    var a, b := m[i..e][j..j + n], m[i + j..i + j + n];
    forall k | 0 <= k < n
      ensures a[k] == b[k]
    {
    }
  }

  /** A text in which `p` does not occur has no occurrence of `p` in any slice. */
  lemma NoOccurrenceInSlice(m: string, p: string, i: nat, e: nat)
    requires i <= e <= |m| && !Occurs(m, p)
    ensures !Occurs(m[i..e], p)
  {
    forall j | 0 <= j <= |m[i..e]| - |p|
      ensures OccursAt(m[i..e], p, j) ==> OccursAt(m, p, i + j)
    {
      SliceOfSlice(m, i, e, j, |p|);
    }
  }

  lemma SplitThree(m: string, i: nat, e: nat)
    requires i <= e <= |m|
    ensures m == m[..i] + m[i..e] + m[e..]
  {
  }

  /** The first marker after marker-free text takes the first saved block. */
  lemma RestoreStep(u: string, t: string, marker: string, aside: string, asides: seq<string>)
    requires LoneOpening(marker) && !Occurs(u, marker)
    ensures RestoreAsides(u + marker + t, marker, [aside] + asides) == u + aside + RestoreAsides(t, marker, asides)
  {
    var x := u + marker + t;
    MarkerFirst(u, t, marker);
    assert x[..|u|] == u && x[|u| + |marker|..] == t;
    assert ([aside] + asides)[1..] == asides;
  }

  /** Restoring undoes setting apart behind any such marker the text does not hold. */
  lemma {:induction false} RestoreUndoesSetApart(m: string, marker: string)
    requires LoneOpening(marker) && !Occurs(m, marker)
    ensures RestoreAsides(SetApart(m, marker), marker, AsidesOf(m)) == m
    decreases |m|
  {
    match AsideSpan(m)
    case None =>
    case Some((i, e)) =>
      var rest := m[e..];
      NoOccurrenceInSlice(m, marker, 0, i);
      NoOccurrenceInSlice(m, marker, e, |m|);
      assert m[..i] == m[0..i] && rest == m[e..|m|];
      RestoreStep(m[..i], SetApart(rest, marker), marker, m[i..e], AsidesOf(rest));
      RestoreUndoesSetApart(rest, marker);
      SplitThree(m, i, e);
  }

  /**
   * Restoring undoes setting apart: in main content that does not itself
   * hold the marker text, putting the saved blocks back in place of the
   * markers gives back the content.
   */
  lemma RestoreUndoesRemove(m: string)
    requires !Occurs(m, Marker)
    ensures RestoreAsides(RemoveAsides(m), Marker, AsidesOf(m)) == m
  {
    MarkerIsLone();
    RestoreUndoesSetApart(m, Marker);
  }
}
