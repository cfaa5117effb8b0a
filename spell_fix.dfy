/**
 * The repair half of the Norwegian spellchecker: each record's span is
 * replaced by the record's replacement, put in the case of the text that
 * was found, working from the last span of the text to the first so that
 * positions not yet used stay valid.
 */
module SpellFix {
  import opened Chars
  import opened Sorting
  import opened SpellPatterns
  import opened Spellcheck

  // ---------------------------------------------------------------------
  // Case adjustment
  // ---------------------------------------------------------------------

  /**
   * The case adjustment is defined: the found text is not empty (its
   * first character is read) and, when only that first character decides,
   * the replacement is not empty either (its first character is read).
   */
  predicate Adaptable(found: string, repl: string)
  {
    found != [] && (!IsUpperString(found) && IsUpper(found[0]) ==> repl != [])
  }

  predicate IssueAdaptable(i: Issue)
  {
    Adaptable(i.found, i.replacement)
  }

  predicate AllAdaptable(issues: seq<Issue>)
  {
    forall i :: i in issues ==> IssueAdaptable(i)
  }

  /**
   * The replacement in the case of the found text: all upper case when the
   * found text is, with an upper-case first character when only the found
   * text's first character is, and as written otherwise.
   */
  function Adapt(found: string, repl: string): string
    requires Adaptable(found, repl)
  {
    if IsUpperString(found) then Upper(repl)
    else if IsUpper(found[0]) then UpperOf(repl[0]) + repl[1..]
    else repl
  }

  /** The three cases of the case adjustment. */
  lemma AdaptFollowsCase(found: string, repl: string)
    requires Adaptable(found, repl)
    ensures var r := Adapt(found, repl);
      && (IsUpperString(found) ==> forall k :: 0 <= k < |r| ==> !IsLower(r[k]))
      && (!IsUpperString(found) && IsUpper(found[0]) ==>
            && |r| >= |repl|
            && !IsLower(r[0])
            && r[|r| - |repl| + 1..] == repl[1..]
            && (IsLower(repl[0]) && repl[0] != 'ß' ==> r[0] != repl[0]))
      && (!IsUpperString(found) && !IsUpper(found[0]) ==> r == repl)
  {
    if !IsUpperString(found) && IsUpper(found[0]) {
      var u := UpperOf(repl[0]);
      assert Adapt(found, repl) == u + repl[1..];
      assert !IsLower(u[0]);
    }
  }

  /**
   * The case adjustment changes only case: for a replacement without ß, µ
   * and ÿ the result has the replacement's length and the same letters.
   */
  lemma AdaptOnlyCase(found: string, repl: string)
    requires Adaptable(found, repl)
    requires 'ß' !in repl && 'µ' !in repl && 'ÿ' !in repl
    ensures |Adapt(found, repl)| == |repl| && Lower(Adapt(found, repl)) == Lower(repl)
  {
    var r := Adapt(found, repl);
    if IsUpperString(found) {
      UpperOnlyCase(repl);
    } else if IsUpper(found[0]) {
      var u := UpperOf(repl[0]);
      assert |u| == 1 && ToLower(u[0]) == ToLower(repl[0]);
      assert r == u + repl[1..];
      forall k | 0 <= k < |repl|
        ensures Lower(r)[k] == Lower(repl)[k]
      {
        if k > 0 {
          assert r[k] == repl[k];
        }
      }
    }
  }

  // ---------------------------------------------------------------------
  // Splicing
  // ---------------------------------------------------------------------

  /** `s[:start] + r + s[end:]`, the slice bounds clipped to the text. */
  function Splice(s: string, start: nat, end: nat, r: string): (t: string)
    ensures start <= end <= |s| ==>
      && |t| == |s| - (end - start) + |r|
      && t[..start] == s[..start]
      && t[start..start + |r|] == r
      && t[start + |r|..] == s[end..]
  {
    var a := if start <= |s| then start else |s|;
    var b := if end <= |s| then end else |s|;
    s[..a] + r + s[b..]
  }

  /** One record's repair applied to `s`. */
  function Fix(s: string, i: Issue): string
    requires IssueAdaptable(i)
  {
    Splice(s, i.start, i.end, Adapt(i.found, i.replacement))
  }

  /** The records' repairs applied one after the other, first record first. */
  function ApplyInOrder(s: string, ds: seq<Issue>): string
    requires AllAdaptable(ds)
    decreases |ds|
  {
    if ds == [] then s
    else
      assert ds[0] in ds && forall i :: i in ds[1..] ==> i in ds;
      ApplyInOrder(Fix(s, ds[0]), ds[1..])
  }

  /** The sort key of `fix_issues`: start positions in decreasing order. */
  function ByStartDesc(i: Issue): int
  {
    -(i.start as int)
  }

  /** The text `fix_issues` returns: the records sorted by decreasing start, then repaired in that order. */
  function FixedText(content: string, issues: seq<Issue>): string
    requires AllAdaptable(issues)
  {
    SortByMembers(issues, ByStartDesc);
    ApplyInOrder(content, SortBy(issues, ByStartDesc))
  }

  /** `fix_issues`, with its loop over the sorted records and the case adjustment written out. */
  method FixIssues(content: string, issues: seq<Issue>) returns (fixed: string)
    requires AllAdaptable(issues)
    ensures fixed == FixedText(content, issues)
  {
    SortByMembers(issues, ByStartDesc);
    var sorted := SortBy(issues, ByStartDesc);
    fixed := content;
    for k := 0 to |sorted|
      invariant AllAdaptable(sorted[k..])
      invariant ApplyInOrder(fixed, sorted[k..]) == FixedText(content, issues)
    {
      var issue := sorted[k];
      assert issue in sorted[k..] && sorted[k..][1..] == sorted[k + 1..];
      var found, replacement := issue.found, issue.replacement;
      if IsUpperString(found) {
        replacement := Upper(replacement);
      } else if IsUpper(found[0]) {
        replacement := UpperOf(replacement[0]) + replacement[1..];
      }
      assert replacement == Adapt(issue.found, issue.replacement);
      fixed := Splice(fixed, issue.start, issue.end, replacement);
    }
  }

  // ---------------------------------------------------------------------
  // Working from the end of the text
  // ---------------------------------------------------------------------

  /**
   * Non-empty spans, each lying wholly before the one listed ahead of it:
   * the list runs from the end of the text towards its start.
   */
  predicate Desc(ds: seq<Issue>)
    decreases |ds|
  {
    ds == [] ||
    (ds[0].start < ds[0].end && (|ds| > 1 ==> ds[1].end <= ds[0].start) && Desc(ds[1..]))
  }

  /** The spans end inside a text of length `len` (for such a list, the first span ends last). */
  predicate Within(ds: seq<Issue>, len: nat)
  {
    ds == [] || ds[0].end <= len
  }

  /**
   * The intended result, given spans from the last to the first: the text
   * up to the last span with the other spans repaired, then the last
   * span's replacement, then the text after that span as it was.
   */
  function Stitch(s: string, ds: seq<Issue>): string
    requires Desc(ds) && Within(ds, |s|) && AllAdaptable(ds)
    decreases |ds|
  {
    if ds == [] then s
    else
      assert ds[0] in ds && forall i :: i in ds[1..] ==> i in ds;
      Stitch(s[..ds[0].start], ds[1..]) + Adapt(ds[0].found, ds[0].replacement) + s[ds[0].end..]
  }

  /** Repairs that lie inside `u` leave a suffix `v` alone. */
  lemma {:induction false} ApplyInPrefix(u: string, v: string, ds: seq<Issue>)
    requires Desc(ds) && Within(ds, |u|) && AllAdaptable(ds)
    ensures ApplyInOrder(u + v, ds) == ApplyInOrder(u, ds) + v
    decreases |ds|
  {
    if ds != [] {
      var d, rest := ds[0], ds[1..];
      assert d in ds && forall i :: i in rest ==> i in ds;
      assert (u + v)[..d.start] == u[..d.start];
      assert (u + v)[d.end..] == u[d.end..] + v;
      assert Fix(u + v, d) == Fix(u, d) + v;
      ApplyInPrefix(Fix(u, d), v, rest);
    }
  }

  /** Repairing spans from the last to the first gives the intended result. */
  lemma {:induction false} ApplyDesc(s: string, ds: seq<Issue>)
    requires Desc(ds) && Within(ds, |s|) && AllAdaptable(ds)
    ensures ApplyInOrder(s, ds) == Stitch(s, ds)
    decreases |ds|
  {
    if ds != [] {
      var d, rest := ds[0], ds[1..];
      assert d in ds && forall i :: i in rest ==> i in ds;
      var u, v := s[..d.start], Adapt(d.found, d.replacement) + s[d.end..];
      assert Fix(s, d) == u + v;
      ApplyInPrefix(u, v, rest);
      ApplyDesc(u, rest);
    }
  }

  /** The first span of such a list starts after every other one. */
  lemma {:induction false} DescHeadLast(ds: seq<Issue>, m: nat)
    requires Desc(ds) && m < |ds|
    ensures ds[m].start <= ds[0].start && (m != 0 ==> ds[m].start < ds[0].start)
    decreases m
  {
    if m != 0 {
      DescHeadLast(ds[1..], m - 1);
    }
  }

  /** Two such lists with the same elements begin with the same span. */
  lemma DescHead(xs: seq<Issue>, ys: seq<Issue>)
    requires Desc(xs) && Desc(ys) && xs != [] && multiset(xs) == multiset(ys)
    ensures ys != [] && xs[0] == ys[0]
  {
    assert xs[0] in multiset(ys);
    var m :| 0 <= m < |ys| && ys[m] == xs[0];
    assert ys[0] in multiset(xs);
    var m' :| 0 <= m' < |xs| && xs[m'] == ys[0];
    DescHeadLast(ys, m);
    DescHeadLast(xs, m');
  }

  /** A list of spans from the last to the first is determined by its elements. */
  lemma {:induction false} DescUnique(xs: seq<Issue>, ys: seq<Issue>)
    requires Desc(xs) && Desc(ys) && multiset(xs) == multiset(ys)
    ensures xs == ys
    decreases |xs|
  {
    if xs != [] {
      DescHead(xs, ys);
      DescTails(xs, ys);
      DescUnique(xs[1..], ys[1..]);
      SameHeadSameTail(xs, ys);
    }
  }

  /** After a common first span, the rests have the same elements. */
  lemma DescTails(xs: seq<Issue>, ys: seq<Issue>)
    requires xs != [] && ys != [] && xs[0] == ys[0] && multiset(xs) == multiset(ys)
    ensures multiset(xs[1..]) == multiset(ys[1..])
  {
    assert xs == [xs[0]] + xs[1..] && ys == [ys[0]] + ys[1..];
    assert multiset(xs[1..]) == multiset(xs) - multiset{xs[0]};
    assert multiset(ys[1..]) == multiset(ys) - multiset{ys[0]};
  }

  lemma SameHeadSameTail<T>(xs: seq<T>, ys: seq<T>)
    requires xs != [] && ys != [] && xs[0] == ys[0] && xs[1..] == ys[1..]
    ensures xs == ys
  {
    assert xs == [xs[0]] + xs[1..] && ys == [ys[0]] + ys[1..];
  }

  // ---------------------------------------------------------------------
  // Records that do not overlap
  // ---------------------------------------------------------------------

  /** Non-empty spans inside a text of length `len`. */
  predicate InText(issues: seq<Issue>, len: nat)
  {
    forall i :: i in issues ==> i.start < i.end <= len
  }

  /** Two records whose spans do not overlap. */
  predicate Apart(a: Issue, b: Issue)
  {
    a.end <= b.start || b.end <= a.start
  }

  /** No two different records overlap. */
  predicate Disjoint(issues: seq<Issue>)
  {
    forall a, b :: a in issues && b in issues && a != b ==> Apart(a, b)
  }

  /** Sorting non-overlapping records by decreasing start orders them from the last to the first. */
  lemma SortedIsDesc(issues: seq<Issue>, len: nat)
    requires Distinct(issues) && InText(issues, len) && Disjoint(issues)
    ensures Desc(SortBy(issues, ByStartDesc)) && Within(SortBy(issues, ByStartDesc), len)
  {
    var ds := SortBy(issues, ByStartDesc);
    SortBySorted(issues, ByStartDesc);
    SortByDistinct(issues, ByStartDesc);
    SortByMembers(issues, ByStartDesc);
    assert InText(ds, len) && Disjoint(ds);
    SortedApart(ds, len);
    PairwiseDesc(ds);
    if ds != [] {
      assert ds[0] in ds;
    }
  }

  /** In such a listing, every span ends before the start of each span listed ahead of it. */
  lemma SortedApart(ds: seq<Issue>, len: nat)
    requires SortedBy(ds, ByStartDesc) && Distinct(ds) && InText(ds, len) && Disjoint(ds)
    ensures forall k :: 0 <= k < |ds| ==> ds[k].start < ds[k].end
    ensures forall j, k :: 0 <= j < k < |ds| ==> ds[k].end <= ds[j].start
  {
    forall k | 0 <= k < |ds|
      ensures ds[k].start < ds[k].end
    {
      assert ds[k] in ds;
    }
    forall j, k | 0 <= j < k < |ds|
      ensures ds[k].end <= ds[j].start
    {
      assert ds[j] in ds && ds[k] in ds;
      assert ByStartDesc(ds[j]) <= ByStartDesc(ds[k]);
      assert ds[j] != ds[k];
      assert Apart(ds[j], ds[k]);
    }
  }

  /** Spans that pairwise lie before the ones listed ahead of them form such a list. */
  lemma {:induction false} PairwiseDesc(ds: seq<Issue>)
    requires forall k :: 0 <= k < |ds| ==> ds[k].start < ds[k].end
    requires forall j, k :: 0 <= j < k < |ds| ==> ds[k].end <= ds[j].start
    ensures Desc(ds)
    decreases |ds|
  {
    if ds != [] {
      var rest := ds[1..];
      assert forall k :: 0 <= k < |rest| ==> rest[k] == ds[k + 1];
      PairwiseDesc(rest);
    }
  }

  /**
   * For records that do not overlap, `fix_issues` gives the intended
   * result: each record's span replaced by its adjusted replacement and
   * the text between spans unchanged, for any listing of the records from
   * the last span to the first.
   */
  lemma FixedTextStitches(content: string, issues: seq<Issue>, ds: seq<Issue>)
    requires AllAdaptable(issues) && Distinct(issues) && InText(issues, |content|) && Disjoint(issues)
    requires Desc(ds) && multiset(ds) == multiset(issues)
    ensures Within(ds, |content|) && AllAdaptable(ds)
    ensures FixedText(content, issues) == Stitch(content, ds)
  {
    var sorted := SortBy(issues, ByStartDesc);
    SortedIsDesc(issues, |content|);
    SortByMembers(issues, ByStartDesc);
    DescUnique(sorted, ds);
    ApplyDesc(content, sorted);
  }

  /** Records that lie apart from one another can always be listed from the last span to the first. */
  lemma DescExists(issues: seq<Issue>, len: nat)
    requires Distinct(issues) && InText(issues, len) && Disjoint(issues)
    ensures exists ds :: Desc(ds) && multiset(ds) == multiset(issues)
  {
    SortedIsDesc(issues, len);
    assert Desc(SortBy(issues, ByStartDesc));
  }

  /** The records `find_issues` reports can always be repaired, and their spans are non-empty spans of the text. */
  lemma IssuesAdaptable(file: string, content: string, entries: seq<Pattern>)
    ensures AllAdaptable(Issues(file, content, entries))
    ensures InText(Issues(file, content, entries), |content|)
  {
    var issues := Issues(file, content, entries);
    forall r | r in issues
      ensures IssueAdaptable(r) && r.start < r.end <= |content|
    {
      var i :| 0 <= i < |issues| && issues[i] == r;
      IssueRecord(file, content, entries, i);
    }
  }

  // ---------------------------------------------------------------------
  // Keeping the first of overlapping records
  // ---------------------------------------------------------------------

  /**
   * The records in their order, leaving out each one that overlaps a
   * record kept before it.
   */
  function KeepFirst(issues: seq<Issue>): seq<Issue>
    decreases |issues|
  {
    if issues == [] then []
    else
      var kept := KeepFirst(issues[..|issues| - 1]);
      var x := issues[|issues| - 1];
      if forall y :: y in kept ==> Apart(x, y) then kept + [x] else kept
  }

  /**
   * What is kept comes from the records, has no duplicates and no
   * overlaps, and every record left out overlaps a kept one.
   */
  lemma {:induction false} KeepFirstDisjoint(issues: seq<Issue>, len: nat)
    requires InText(issues, len)
    ensures var kept := KeepFirst(issues);
      && (forall i :: i in kept ==> i in issues)
      && Distinct(kept) && Disjoint(kept)
      && (forall x :: x in issues && x !in kept ==> exists y :: y in kept && !Apart(x, y))
    decreases |issues|
  {
    if issues != [] {
      var init, x := issues[..|issues| - 1], issues[|issues| - 1];
      assert issues == init + [x];
      KeepFirstDisjoint(init, len);
      var prev := KeepFirst(init);
      if forall y :: y in prev ==> Apart(x, y) {
        var kept := prev + [x];
        assert !Apart(x, x);
        assert x !in prev;
        assert forall k :: 0 <= k < |prev| ==> kept[k] == prev[k];
        forall x' | x' in issues && x' !in kept
          ensures exists y :: y in kept && !Apart(x', y)
        {
          assert x' in init;
          var y :| y in prev && !Apart(x', y);
          assert y in kept;
        }
      } else {
        forall x' | x' in issues && x' !in prev
          ensures exists y :: y in prev && !Apart(x', y)
        {
          if x' !in init {
            assert x' == x;
          }
        }
      }
    }
  }

  /**
   * Repairing only the first of overlapping records gives the intended
   * result: every kept span replaced, the text between them unchanged.
   */
  lemma FixedKeepFirstStitches(content: string, issues: seq<Issue>, ds: seq<Issue>)
    requires AllAdaptable(issues) && InText(issues, |content|)
    requires Desc(ds) && multiset(ds) == multiset(KeepFirst(issues))
    ensures AllAdaptable(KeepFirst(issues)) && Within(ds, |content|) && AllAdaptable(ds)
    ensures FixedText(content, KeepFirst(issues)) == Stitch(content, ds)
  {
    KeepFirstDisjoint(issues, |content|);
    FixedTextStitches(content, KeepFirst(issues), ds);
  }
}
