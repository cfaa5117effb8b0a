/**
 * The JavaScript string built-ins the page scripts rely on:
 * case-insensitive comparison (`toLowerCase` and a regular expression's
 * `i` flag), `endsWith`, `indexOf`, `lastIndexOf` with a start position,
 * the `$` forms that `replace` expands in its replacement text, and the
 * end of the line that `.*` stops at. Lengths and indices count
 * characters.
 */
module JsStrings {
  import opened Chars
  import opened Strings

  /** `t` matches at index `i` of `s`, ignoring case. */
  predicate FoldedAt(s: string, t: string, i: nat)
  {
    i + |t| <= |s| && forall k :: 0 <= k < |t| ==> ToLower(s[i + k]) == ToLower(t[k])
  }

  /** `s.toLowerCase().endsWith(t.toLowerCase())`. */
  predicate EndsWithFolded(s: string, t: string)
  {
    |t| <= |s| && FoldedAt(s, t, |s| - |t|)
  }

  /** Comparing character by character is comparing the lower-cased strings. */
  lemma EndsWithFoldedIsLower(s: string, t: string)
    requires |t| <= |s|
    ensures EndsWithFolded(s, t) <==> Lower(s)[|s| - |t|..] == Lower(t)
  {
    var a := |s| - |t|;
    if EndsWithFolded(s, t) {
      assert forall k :: 0 <= k < |t| ==> Lower(s)[a..][k] == Lower(t)[k];
    }
    if Lower(s)[a..] == Lower(t) {
      forall k | 0 <= k < |t|
        ensures ToLower(s[a + k]) == ToLower(t[k])
      {
        assert Lower(s)[a..][k] == Lower(s)[a + k];
      }
    }
  }

  /** `s.indexOf(p)`: the first index where `p` occurs, or -1. */
  function IndexOf(s: string, p: string): (i: int)
    ensures -1 <= i <= |s|
    ensures i >= 0 ==> OccursAt(s, p, i)
    ensures forall j :: 0 <= j < i || (i < 0 && 0 <= j) ==> !OccursAt(s, p, j)
  {
    IndexFrom(s, p, 0)
  }

  function IndexFrom(s: string, p: string, start: nat): (i: int)
    requires start <= |s| + 1
    ensures -1 <= i <= |s|
    ensures i >= 0 ==> start <= i && OccursAt(s, p, i)
    ensures forall j :: start <= j < i || (i < 0 && start <= j) ==> !OccursAt(s, p, j)
    decreases |s| + 1 - start
  {
    if start + |p| > |s| then -1
    else if OccursAt(s, p, start) then start
    else IndexFrom(s, p, start + 1)
  }

  /**
   * The text `s.replace(p, q)` puts in place of a string pattern `p`, found
   * with `before` ahead of it and `after` behind it, as the ECMAScript
   * GetSubstitution operation builds it: `$$` inserts `$`, `$&` the matched
   * text, `` $` `` the text before the match and `$'` the text after it. A
   * string pattern has no groups, so `$1`, `$<` and every other `$` stay as
   * written.
   */
  function Substitute(q: string, matched: string, before: string, after: string): string
    decreases |q|
  {
    if q == [] then []
    else if q[0] == '$' && |q| >= 2 && q[1] in "$&`'" then
      (if q[1] == '$' then "$" else if q[1] == '&' then matched else if q[1] == '`' then before else after)
      + Substitute(q[2..], matched, before, after)
    else [q[0]] + Substitute(q[1..], matched, before, after)
  }

  /** A replacement without `$` is inserted as it stands. */
  lemma {:induction false} SubstitutePlain(q: string, matched: string, before: string, after: string)
    requires '$' !in q
    ensures Substitute(q, matched, before, after) == q
    decreases |q|
  {
    if q != [] {
      SubstitutePlain(q[1..], matched, before, after);
    }
  }

  /** `t` with every `$` written twice: the replacement text that inserts `t` itself. */
  function EscapeDollars(t: string): string
    decreases |t|
  {
    if t == [] then []
    else (if t[0] == '$' then "$$" else [t[0]]) + EscapeDollars(t[1..])
  }

  /** Substituting an escaped text gives back the text, whatever was matched. */
  lemma {:induction false} SubstituteEscaped(t: string, matched: string, before: string, after: string)
    ensures Substitute(EscapeDollars(t), matched, before, after) == t
    decreases |t|
  {
    if t != [] {
      var q := EscapeDollars(t);
      SubstituteEscaped(t[1..], matched, before, after);
      if t[0] == '$' {
        assert q == "$$" + EscapeDollars(t[1..]);
        assert q[2..] == EscapeDollars(t[1..]);
      } else {
        assert q == [t[0]] + EscapeDollars(t[1..]);
        assert q[1..] == EscapeDollars(t[1..]);
      }
      assert t == [t[0]] + t[1..];
    }
  }

  /** The four forms and a few that stay as written. */
  lemma DollarForms(matched: string, before: string, after: string)
    ensures Substitute("$$", matched, before, after) == "$"
    ensures Substitute("$&", matched, before, after) == matched
    ensures Substitute("$`", matched, before, after) == before
    ensures Substitute("$'", matched, before, after) == after
    ensures Substitute("$1", matched, before, after) == "$1"
    ensures Substitute("$<", matched, before, after) == "$<"
    ensures Substitute("a$", matched, before, after) == "a$"
  {
    assert "$$"[2..] == [];
    assert "$&"[2..] == [];
    assert "$`"[2..] == [];
    assert "$'"[2..] == [];
    assert "$1"[1..] == "1" && "1"[1..] == [];
    assert "$<"[1..] == "<" && "<"[1..] == [];
    assert "a$"[1..] == "$" && "$"[1..] == [];
  }

  /** `s.lastIndexOf(p, from)`: the last index at most `from` where `p` occurs, or -1. */
  function LastIndexOf(s: string, p: string, from: nat): (i: int)
    ensures -1 <= i <= from
    ensures i >= 0 ==> OccursAt(s, p, i)
    ensures forall j :: i < j <= from ==> !OccursAt(s, p, j)
    decreases from
  {
    if OccursAt(s, p, from) then from
    else if from == 0 then -1
    else LastIndexOf(s, p, from - 1)
  }

  /** A line terminator, which `.` does not match. */
  predicate IsLineTerminator(c: char)
  {
    c == '\n' || c == '\r' || c == '\U{2028}' || c == '\U{2029}'
  }

  /** Where `.*` starting at `i` stops: the next line terminator, or the end. */
  function LineEnd(s: string, i: nat): (j: nat)
    requires i <= |s|
    ensures i <= j <= |s|
    ensures forall k :: i <= k < j ==> !IsLineTerminator(s[k])
    ensures j < |s| ==> IsLineTerminator(s[j])
    decreases |s| - i
  {
    if i == |s| || IsLineTerminator(s[i]) then i else LineEnd(s, i + 1)
  }

  /** The first index where `t` matches ignoring case, or -1: where a case-insensitive `t` followed by `.*` starts. */
  function FoldedIndexOf(s: string, t: string, start: nat): (i: int)
    requires start <= |s| + 1
    ensures -1 <= i <= |s|
    ensures i >= 0 ==> start <= i && FoldedAt(s, t, i)
    ensures forall j: nat :: start <= j < i || (i < 0 && start <= j) ==> !FoldedAt(s, t, j)
    decreases |s| + 1 - start
  {
    if start + |t| > |s| then -1
    else if FoldedAt(s, t, start) then start
    else FoldedIndexOf(s, t, start + 1)
  }

  /**
   * A global, case-insensitive replacement of `p` by `q` (a regular
   * expression `/p/gi` with a plain replacement text), left to right and
   * without overlaps.
   */
  function ReplaceAllFolded(s: string, p: string, q: string): string
    requires p != []
    decreases |s|
  {
    if |s| < |p| then s
    else if FoldedAt(s, p, 0) then q + ReplaceAllFolded(s[|p|..], p, q)
    else [s[0]] + ReplaceAllFolded(s[1..], p, q)
  }

  /** Without a match the replacement changes nothing. */
  lemma {:induction false} ReplaceAllFoldedAbsent(s: string, p: string, q: string)
    requires p != []
    requires forall i: nat :: !FoldedAt(s, p, i)
    ensures ReplaceAllFolded(s, p, q) == s
    decreases |s|
  {
    if |s| >= |p| {
      assert !FoldedAt(s, p, 0);
      forall i: nat
        ensures !FoldedAt(s[1..], p, i)
      {
        FoldedAtTail(s, p, i);
      }
      ReplaceAllFoldedAbsent(s[1..], p, q);
    }
  }

  /** A match in the tail is a match one position further in the whole. */
  lemma FoldedAtTail(s: string, p: string, i: nat)
    requires s != []
    ensures FoldedAt(s[1..], p, i) <==> FoldedAt(s, p, i + 1)
  {
    if i + |p| <= |s| - 1 {
      forall k | 0 <= k < |p|
        ensures ToLower(s[1..][i + k]) == ToLower(p[k]) <==> ToLower(s[i + 1 + k]) == ToLower(p[k])
      {
      }
    }
  }
}
