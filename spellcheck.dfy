/**
 * The Norwegian spellchecker (website/scripts/python/norwegian-spellcheck.py).
 * `find_issues` runs every pattern of the table over a page and records
 * each match; `fix_issues` splices the replacements in, from the last
 * position of the page backwards, adapting each replacement to the case
 * of the text it replaces; `scan_directory` does both for every page and
 * returns the number of issues, from which `main` derives the exit code.
 */
module Spellcheck {
  import opened Chars
  import opened Strings
  import opened Sorting
  import opened WordMatch
  import opened SpellPatterns

  /** One report record: the issue dictionary that `find_issues` builds. */
  datatype Issue = Issue(
    file: string, line: nat, found: string, replacement: string,
    description: string, context: string, start: nat, end: nat)

  // ---------------------------------------------------------------------
  // find_issues
  // ---------------------------------------------------------------------

  /** The first position of the context shown around a match: 30 characters back, clipped at 0. */
  function WindowStart(start: nat): nat
  {
    if start >= 30 then start - 30 else 0
  }

  /** The end of the context shown around a match: 30 characters on, clipped at the text's end. */
  function WindowEnd(len: nat, end: nat): nat
  {
    if end + 30 <= len then end + 30 else len
  }

  /** The case flag `find_issues` passes for an entry; every table entry is matched ignoring case. */
  function CaseFlag(e: Pattern): (ic: bool)
    ensures ic
  {
    AllIgnoreCase(e);
    IgnoreCaseFlag(Source(e.pattern))
  }

  /** The spans `re.finditer` yields for one entry, in order, each non-empty and inside the text. */
  function EntryMatches(content: string, e: Pattern): (ms: seq<Span>)
    ensures forall k :: 0 <= k < |ms| ==> ms[k].start < ms[k].end <= |content|
  {
    MatchesOfSound(content, e.pattern, CaseFlag(e));
    MatchesOf(content, e.pattern, CaseFlag(e))
  }

  /** The record for one match of entry `e`. */
  function MakeIssue(file: string, content: string, e: Pattern, m: Span): Issue
    requires m.start <= m.end <= |content|
  {
    var lo, hi := WindowStart(m.start), WindowEnd(|content|, m.end);
    Issue(file, Count(content[..m.start], "\n") + 1, content[m.start..m.end],
          e.replacement, e.description, ReplaceAll(content[lo..hi], "\n", " "), m.start, m.end)
  }

  /** Spans that lie inside a text of length `len`. */
  predicate SpansIn(ms: seq<Span>, len: nat)
  {
    forall k :: 0 <= k < |ms| ==> ms[k].start <= ms[k].end <= len
  }

  /** The records of the matches `ms` of entry `e`, in order. */
  function RecordsOf(file: string, content: string, e: Pattern, ms: seq<Span>): (r: seq<Issue>)
    requires SpansIn(ms, |content|)
    ensures |r| == |ms|
    ensures forall k :: 0 <= k < |ms| ==> r[k] == MakeIssue(file, content, e, ms[k])
  {
    seq(|ms|, k requires 0 <= k < |ms| => MakeIssue(file, content, e, ms[k]))
  }

  lemma RecordsOfSnoc(file: string, content: string, e: Pattern, ms: seq<Span>, k: nat)
    requires SpansIn(ms, |content|) && k < |ms|
    ensures SpansIn(ms[..k], |content|) && SpansIn(ms[..k + 1], |content|)
    ensures RecordsOf(file, content, e, ms[..k + 1]) == RecordsOf(file, content, e, ms[..k]) + [MakeIssue(file, content, e, ms[k])]
  {
    assert forall j :: 0 <= j < k + 1 ==> ms[..k + 1][j] == ms[j];
    var a := RecordsOf(file, content, e, ms[..k + 1]);
    var b := RecordsOf(file, content, e, ms[..k]) + [MakeIssue(file, content, e, ms[k])];
    assert |a| == |b|;
    forall j | 0 <= j < k + 1
      ensures a[j] == b[j]
    {
      if j < k {
        assert ms[..k][j] == ms[j];
      }
    }
  }

  /** Match lists for `entries`, one list per entry, every span inside a text of length `len`. */
  predicate FoundIn(found: seq<seq<Span>>, entries: seq<Pattern>, len: nat)
  {
    |found| == |entries| && forall n :: 0 <= n < |found| ==> SpansIn(found[n], len)
  }

  /** The records for the match lists `found`, entry by entry in table order. */
  function Records(file: string, content: string, entries: seq<Pattern>, found: seq<seq<Span>>): seq<Issue>
    requires FoundIn(found, entries, |content|)
    decreases |entries|
  {
    if entries == [] then []
    else
      var n := |entries| - 1;
      Records(file, content, entries[..n], found[..n]) + RecordsOf(file, content, entries[n], found[n])
  }

  /** What `re.finditer` yields for each entry of the table. */
  function AllMatches(content: string, entries: seq<Pattern>): (found: seq<seq<Span>>)
    ensures FoundIn(found, entries, |content|)
    ensures forall n :: 0 <= n < |entries| ==> found[n] == EntryMatches(content, entries[n])
  {
    seq(|entries|, n requires 0 <= n < |entries| => EntryMatches(content, entries[n]))
  }

  /** `find_issues`: the records of every match of every entry, entry by entry in table order. */
  function Issues(file: string, content: string, entries: seq<Pattern>): seq<Issue>
  {
    Records(file, content, entries, AllMatches(content, entries))
  }

  /** The inner loop of `find_issues`: one record appended per match of entry `e`. */
  method AppendRecords(issues: seq<Issue>, file: string, content: string, e: Pattern, ms: seq<Span>)
    returns (out: seq<Issue>)
    requires SpansIn(ms, |content|)
    ensures out == issues + RecordsOf(file, content, e, ms)
  {
    out := issues;
    for k := 0 to |ms|
      invariant out == issues + RecordsOf(file, content, e, ms[..k])
    {
      var m := ms[k];
      var line := Count(content[..m.start], "\n") + 1;
      var lo, hi := WindowStart(m.start), WindowEnd(|content|, m.end);
      var context := ReplaceAll(content[lo..hi], "\n", " ");
      var issue := Issue(file, line, content[m.start..m.end], e.replacement, e.description, context, m.start, m.end);
      ghost var expected := MakeIssue(file, content, e, m);
      assert issue.line == expected.line && issue.context == expected.context && issue.found == expected.found;
      RecordsOfSnoc(file, content, e, ms, k);
      out := out + [issue];
    }
    assert ms[..|ms|] == ms;
  }

  /** `find_issues`: for each entry in table order, the records of its matches. */
  method FindIssues(file: string, content: string, entries: seq<Pattern>) returns (issues: seq<Issue>)
    ensures issues == Issues(file, content, entries)
  {
    ghost var found := AllMatches(content, entries);
    issues := [];
    for n := 0 to |entries|
      invariant FoundIn(found[..n], entries[..n], |content|)
      invariant issues == Records(file, content, entries[..n], found[..n])
    {
      var e := entries[n];
      var ms := EntryMatches(content, e);
      assert ms == found[n];
      issues := AppendRecords(issues, file, content, e, ms);
      assert entries[..n + 1][..n] == entries[..n] && found[..n + 1][..n] == found[..n];
      assert entries[..n + 1][n] == e && found[..n + 1][n] == ms;
    }
    assert entries[..|entries|] == entries && found[..|found|] == found;
  }

  /** Newlines turned into spaces: the same length, no newline left, every other character kept. */
  lemma ContextOfWindow(content: string, lo: nat, hi: nat)
    requires lo <= hi <= |content|
    ensures var c := ReplaceAll(content[lo..hi], "\n", " ");
      && |c| == hi - lo && '\n' !in c
      && forall k :: 0 <= k < hi - lo ==> c[k] == (if content[lo + k] == '\n' then ' ' else content[lo + k])
  {
    var w := content[lo..hi];
    ReplaceCharMap(w, '\n', ' ');
    ReplaceCharRemoves(w, '\n', " ");
    assert forall k :: 0 <= k < hi - lo ==> w[k] == content[lo + k];
  }

  /**
   * The report fields of a record: the line is one plus the number of
   * newlines before the match, and the context is the window from 30
   * characters before the match to 30 after it, clipped to the text, with
   * every newline turned into a space.
   */
  predicate ReportOk(r: Issue, content: string)
  {
    var lo, hi := WindowStart(r.start), WindowEnd(|content|, r.end);
    && r.start <= r.end <= |content|
    && r.line == multiset(content[..r.start])['\n'] + 1
    && |r.context| == hi - lo && '\n' !in r.context
    && (forall k :: 0 <= k < hi - lo ==> r.context[k] == (if content[lo + k] == '\n' then ' ' else content[lo + k]))
  }

  /** What a record says about the text it was found in: the matched text, its line and its context. */
  lemma MakeIssueFacts(file: string, content: string, e: Pattern, m: Span)
    requires m.start <= m.end <= |content|
    ensures var r := MakeIssue(file, content, e, m);
      && r.file == file && r.start == m.start && r.end == m.end
      && r.replacement == e.replacement && r.description == e.description
      && r.found == content[r.start..r.end]
      && ReportOk(r, content)
  {
    var lo, hi := WindowStart(m.start), WindowEnd(|content|, m.end);
    CountChar(content[..m.start], '\n');
    ContextOfWindow(content, lo, hi);
  }

  /** Every match of every entry has its record. */
  lemma {:induction false} RecordsHas(file: string, content: string, entries: seq<Pattern>, found: seq<seq<Span>>, n: nat, k: nat)
    requires FoundIn(found, entries, |content|) && n < |entries| && k < |found[n]|
    ensures MakeIssue(file, content, entries[n], found[n][k]) in Records(file, content, entries, found)
    decreases |entries|
  {
    var last := |entries| - 1;
    var init, finit := entries[..last], found[..last];
    if n < last {
      assert init[n] == entries[n] && finit[n] == found[n];
      RecordsHas(file, content, init, finit, n, k);
    } else {
      assert RecordsOf(file, content, entries[last], found[last])[k] == MakeIssue(file, content, entries[n], found[n][k]);
    }
  }

  /** Every record comes from one entry and one of that entry's matches. */
  lemma {:induction false} RecordsFrom(file: string, content: string, entries: seq<Pattern>, found: seq<seq<Span>>, i: nat)
    requires FoundIn(found, entries, |content|)
    requires i < |Records(file, content, entries, found)|
    ensures exists n, k :: (0 <= n < |entries| && 0 <= k < |found[n]|
      && Records(file, content, entries, found)[i] == MakeIssue(file, content, entries[n], found[n][k]))
    decreases |entries|
  {
    var last := |entries| - 1;
    var init, finit := entries[..last], found[..last];
    var head := Records(file, content, init, finit);
    if i < |head| {
      RecordsFrom(file, content, init, finit, i);
      var n, k :| 0 <= n < |init| && 0 <= k < |finit[n]|
        && head[i] == MakeIssue(file, content, init[n], finit[n][k]);
      assert init[n] == entries[n] && finit[n] == found[n];
    } else {
      var k := i - |head|;
      assert Records(file, content, entries, found)[i] == RecordsOf(file, content, entries[last], found[last])[k];
    }
  }

  /** No records exactly when every match list is empty. */
  lemma {:induction false} RecordsNone(file: string, content: string, entries: seq<Pattern>, found: seq<seq<Span>>)
    requires FoundIn(found, entries, |content|)
    ensures Records(file, content, entries, found) == [] <==> forall n :: 0 <= n < |found| ==> found[n] == []
    decreases |entries|
  {
    if entries != [] {
      var last := |entries| - 1;
      var init, finit := entries[..last], found[..last];
      RecordsNone(file, content, init, finit);
      var tail := RecordsOf(file, content, entries[last], found[last]);
      assert Records(file, content, entries, found) == Records(file, content, init, finit) + tail;
      assert |tail| == |found[last]|;
      assert forall n :: 0 <= n < last ==> finit[n] == found[n];
    }
  }

  /**
   * Every record: `found` is the matched text `content[start:end]`, the
   * span is non-empty and inside the text, and some entry of the table
   * matches (ignoring case) exactly there and supplies the record's
   * replacement and description.
   */
  lemma IssueRecord(file: string, content: string, entries: seq<Pattern>, i: nat)
    requires i < |Issues(file, content, entries)|
    ensures var r := Issues(file, content, entries)[i];
      && r.file == file
      && r.start < r.end <= |content| && r.found == content[r.start..r.end]
      && (exists n :: (0 <= n < |entries| && r.replacement == entries[n].replacement
            && r.description == entries[n].description && Spans(content, r.start, entries[n].pattern, r.end, true)))
  {
    var found := AllMatches(content, entries);
    RecordsFrom(file, content, entries, found, i);
    var n, k :| 0 <= n < |entries| && 0 <= k < |found[n]|
      && Issues(file, content, entries)[i] == MakeIssue(file, content, entries[n], found[n][k]);
    MakeIssueFacts(file, content, entries[n], found[n][k]);
    MatchesOfSound(content, entries[n].pattern, true);
  }

  /** Every record's line number and context are as `ReportOk` describes. */
  lemma IssueReport(file: string, content: string, entries: seq<Pattern>, i: nat)
    requires i < |Issues(file, content, entries)|
    ensures ReportOk(Issues(file, content, entries)[i], content)
  {
    var found := AllMatches(content, entries);
    RecordsFrom(file, content, entries, found, i);
    var n, k :| 0 <= n < |entries| && 0 <= k < |found[n]|
      && Issues(file, content, entries)[i] == MakeIssue(file, content, entries[n], found[n][k]);
    MakeIssueFacts(file, content, entries[n], found[n][k]);
  }

  /** `find_issues` reports a record for every match of every entry. */
  lemma IssueOfMatch(file: string, content: string, entries: seq<Pattern>, n: nat, m: Span)
    requires n < |entries| && m in EntryMatches(content, entries[n])
    ensures m.start < m.end <= |content|
    ensures MakeIssue(file, content, entries[n], m) in Issues(file, content, entries)
  {
    var found := AllMatches(content, entries);
    var k :| 0 <= k < |found[n]| && found[n][k] == m;
    RecordsHas(file, content, entries, found, n, k);
  }

  /** Entry `e` matches somewhere in the text. */
  predicate EntryMatchesSomewhere(content: string, e: Pattern)
  {
    MatchesSomewhere(content, e.pattern, true)
  }

  /** Some entry of the list matches somewhere in the text. */
  predicate SomeEntryMatches(content: string, entries: seq<Pattern>)
  {
    exists n :: 0 <= n < |entries| && EntryMatchesSomewhere(content, entries[n])
  }

  /** `find_issues` reports nothing exactly when no entry matches anywhere in the text. */
  lemma IssuesEmpty(file: string, content: string, entries: seq<Pattern>)
    ensures Issues(file, content, entries) == [] <==> !SomeEntryMatches(content, entries)
  {
    var found := AllMatches(content, entries);
    RecordsNone(file, content, entries, found);
    forall n | 0 <= n < |entries|
      ensures found[n] == [] <==> !EntryMatchesSomewhere(content, entries[n])
    {
      MatchesOfEmpty(content, entries[n].pattern, true);
    }
  }
}
