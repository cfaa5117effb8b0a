/**
 * Literal substring search and replacement, as the repair scripts use it:
 * Python's `p in s`, `s.count(p)` and `s.replace(p, q)`, and JavaScript's
 * `s.split(p).join(q)`. All of them scan left to right and take
 * non-overlapping occurrences, so one definition (ReplaceAll / Count) serves
 * every script; Split and Join are modelled separately and proved to agree.
 */
module Strings {

  /** `p` occurs in `s` starting at index `i`. */
  predicate OccursAt(s: string, p: string, i: int)
  {
    0 <= i && i + |p| <= |s| && s[i..i + |p|] == p
  }

  /** Python's `p in s`. */
  predicate Occurs(s: string, p: string)
  {
    exists i :: 0 <= i <= |s| - |p| && OccursAt(s, p, i)
  }

  lemma OccursAtPrefix(s: string, p: string)
    requires |p| <= |s| && s[..|p|] == p
    ensures Occurs(s, p)
  {
    assert OccursAt(s, p, 0);
  }

  /** An occurrence in a suffix of `s` is an occurrence in `s`. */
  lemma OccursInSuffix(s: string, p: string, k: nat, i: int)
    requires k <= |s| && OccursAt(s[k..], p, i)
    ensures OccursAt(s, p, i + k)
  {
    assert s[k..][i..i + |p|] == s[i + k..i + k + |p|];
  }

  /** An occurrence in `s` after its first `k` characters is one in `s[k..]`. */
  lemma OccursPastPrefix(s: string, p: string, k: nat, i: int)
    requires k <= i && OccursAt(s, p, i)
    ensures OccursAt(s[k..], p, i - k)
  {
    assert s[k..][i - k..i - k + |p|] == s[i..i + |p|];
  }

  /** Occurrences in either operand of a concatenation. */
  lemma OccursInConcat(a: string, b: string, p: string, i: int)
    ensures OccursAt(a, p, i) ==> OccursAt(a + b, p, i)
    ensures OccursAt(b, p, i) ==> OccursAt(a + b, p, |a| + i)
  {
    if OccursAt(a, p, i) {
      assert (a + b)[i..i + |p|] == a[i..i + |p|];
    }
    if OccursAt(b, p, i) {
      assert (a + b)[|a| + i..|a| + i + |p|] == b[i..i + |p|];
    }
  }

  /** Whatever occurs in an occurrence of `p` occurs in the text. */
  lemma OccursTransitive(s: string, p: string, q: string)
    requires Occurs(s, p) && Occurs(p, q)
    ensures Occurs(s, q)
  {
    var i :| 0 <= i <= |s| - |p| && OccursAt(s, p, i);
    var j :| 0 <= j <= |p| - |q| && OccursAt(p, q, j);
    forall k | 0 <= k < |q|
      ensures s[i + j + k] == q[k]
    {
      assert q[k] == p[j..j + |q|][k] == p[j + k];
      assert p[j + k] == s[i..i + |p|][j + k] == s[i + j + k];
    }
    assert s[i + j..i + j + |q|] == q;
    assert OccursAt(s, q, i + j);
  }

  /** A single character occurs exactly when it is an element. */
  lemma OccursChar(s: string, c: char)
    ensures Occurs(s, [c]) <==> c in s
  {
    if c in s {
      var i :| 0 <= i < |s| && s[i] == c;
      assert OccursAt(s, [c], i);
    }
    if Occurs(s, [c]) {
      var i :| 0 <= i <= |s| - 1 && OccursAt(s, [c], i);
      assert s[i..i + 1][0] == s[i];
    }
  }

  /** A string shorter than `p` cannot contain it. */
  lemma ShortHasNoOccurrence(s: string, p: string)
    requires |s| < |p|
    ensures !Occurs(s, p)
  {
  }

  /** An occurrence of `p` brings all of `p`'s characters along. */
  lemma OccurrenceCarriesChar(s: string, p: string, i: int, k: nat)
    requires OccursAt(s, p, i) && k < |p|
    ensures p[k] in s
  {
    assert s[i..i + |p|][k] == s[i + k];
  }

  /** If some character of `p` is missing from `s`, `p` does not occur in `s`. */
  lemma MissingCharNoOccurrence(s: string, p: string, c: char)
    requires c in p && c !in s
    ensures !Occurs(s, p)
  {
    if Occurs(s, p) {
      var i :| 0 <= i <= |s| - |p| && OccursAt(s, p, i);
      var k :| 0 <= k < |p| && p[k] == c;
      OccurrenceCarriesChar(s, p, i, k);
    }
  }

  /** Two strings of equal length contain each other only if equal. */
  lemma SameLengthOccurs(s: string, p: string)
    requires |s| == |p| && Occurs(s, p)
    ensures s == p
  {
    var i :| 0 <= i <= |s| - |p| && OccursAt(s, p, i);
    assert i == 0;
  }

  /**
   * Leftmost, non-overlapping replacement of every occurrence of `p` by `q`:
   * Python's `s.replace(p, q)` for a non-empty `p`.
   */
  function ReplaceAll(s: string, p: string, q: string): (r: string)
    requires p != []
    decreases |s|
  {
    if |s| < |p| then s
    else if s[..|p|] == p then q + ReplaceAll(s[|p|..], p, q)
    else [s[0]] + ReplaceAll(s[1..], p, q)
  }

  /** Number of occurrences that ReplaceAll rewrites: Python's `s.count(p)`. */
  function Count(s: string, p: string): (n: nat)
    requires p != []
    decreases |s|
  {
    if |s| < |p| then 0
    else if s[..|p|] == p then 1 + Count(s[|p|..], p)
    else Count(s[1..], p)
  }

  /** The scan counts at least one occurrence exactly when there is one. */
  lemma {:induction false} CountZeroIff(s: string, p: string)
    requires p != []
    ensures Count(s, p) == 0 <==> !Occurs(s, p)
    decreases |s|
  {
    if |s| < |p| {
    } else if s[..|p|] == p {
      OccursAtPrefix(s, p);
    } else {
      CountZeroIff(s[1..], p);
      if Occurs(s, p) {
        var i :| 0 <= i <= |s| - |p| && OccursAt(s, p, i);
        assert i != 0;
        OccursPastPrefix(s, p, 1, i);
      }
      if Occurs(s[1..], p) {
        var i :| 0 <= i <= |s[1..]| - |p| && OccursAt(s[1..], p, i);
        OccursInSuffix(s, p, 1, i);
      }
    }
  }

  /** Replacing a pattern that does not occur is the identity. */
  lemma {:induction false} ReplaceAbsent(s: string, p: string, q: string)
    requires p != [] && !Occurs(s, p)
    ensures ReplaceAll(s, p, q) == s
    decreases |s|
  {
    if |s| >= |p| {
      assert !OccursAt(s, p, 0);
      if Occurs(s[1..], p) {
        var i :| 0 <= i <= |s[1..]| - |p| && OccursAt(s[1..], p, i);
        OccursInSuffix(s, p, 1, i);
      }
      ReplaceAbsent(s[1..], p, q);
    }
  }

  /** Each rewritten occurrence changes the length by |q| - |p|. */
  lemma {:induction false} ReplaceLength(s: string, p: string, q: string)
    requires p != []
    ensures |ReplaceAll(s, p, q)| == |s| + Count(s, p) * (|q| - |p|)
    decreases |s|
  {
    if |s| < |p| {
    } else if s[..|p|] == p {
      var rest := s[|p|..];
      ReplaceLength(rest, p, q);
      StepLength(|rest|, |ReplaceAll(rest, p, q)|, Count(rest, p), |p|, |q|);
    } else {
      ReplaceLength(s[1..], p, q);
    }
  }

  /** The arithmetic step of ReplaceLength for a rewritten occurrence. */
  lemma StepLength(n: int, m: int, c: int, lp: int, lq: int)
    requires m == n + c * (lq - lp)
    ensures lq + m == (lp + n) + (1 + c) * (lq - lp)
  {
    assert (1 + c) * (lq - lp) == (lq - lp) + c * (lq - lp);
  }

  /** A text that is exactly the pattern becomes exactly the replacement. */
  lemma ReplaceWhole(p: string, q: string)
    requires p != []
    ensures ReplaceAll(p, p, q) == q
  {
    assert p[..|p|] == p;
    assert p[|p|..] == [];
    assert q + [] == q;
  }

  /** Replacing a pattern by itself is the identity. */
  lemma {:induction false} ReplaceBySelf(s: string, p: string)
    requires p != []
    ensures ReplaceAll(s, p, p) == s
    decreases |s|
  {
    if |s| < |p| {
    } else if s[..|p|] == p {
      ReplaceBySelf(s[|p|..], p);
      assert s == s[..|p|] + s[|p|..];
    } else {
      ReplaceBySelf(s[1..], p);
      assert s == [s[0]] + s[1..];
    }
  }

  /**
   * A character that is neither in `s` outside the occurrences nor in `q`
   * is not in the result. In particular a single-character pattern whose
   * replacement lacks it leaves no trace of it.
   */
  lemma {:induction false} ReplaceCharRemoves(s: string, c: char, q: string)
    requires c !in q
    ensures c !in ReplaceAll(s, [c], q)
    decreases |s|
  {
    if |s| >= 1 {
      ReplaceCharRemoves(s[1..], c, q);
      if s[..1] != [c] {
        assert s[0] != c;
      }
    }
  }

  /** A character absent from both `s` and `q` is absent from the result. */
  lemma {:induction false} ReplaceKeepsCharOut(s: string, p: string, q: string, c: char)
    requires p != [] && c !in s && c !in q
    ensures c !in ReplaceAll(s, p, q)
    decreases |s|
  {
    if |s| < |p| {
    } else if s[..|p|] == p {
      ReplaceKeepsCharOut(s[|p|..], p, q, c);
    } else {
      ReplaceKeepsCharOut(s[1..], p, q, c);
    }
  }

  /** One step of ReplaceAll at a match, seen after a left context `u`. */
  lemma ReplaceStepMatch(u: string, s: string, p: string, q: string)
    requires p != [] && |p| <= |s| && s[..|p|] == p
    ensures u + s == u + p + s[|p|..]
    ensures u + ReplaceAll(s, p, q) == (u + q) + ReplaceAll(s[|p|..], p, q)
  {
    assert s == p + s[|p|..];
  }

  /** One step of ReplaceAll past a non-matching character, after a left context `u`. */
  lemma ReplaceStepSkip(u: string, s: string, p: string, q: string)
    requires p != [] && |p| <= |s| && s[..|p|] != p
    ensures u + s == (u + [s[0]]) + s[1..]
    ensures u + ReplaceAll(s, p, q) == (u + [s[0]]) + ReplaceAll(s[1..], p, q)
  {
    assert s == [s[0]] + s[1..];
  }

  // ---------------------------------------------------------------------
  // When can a replacement create a new occurrence of some pattern?
  // ---------------------------------------------------------------------

  /**
   * `p`, placed at offset `d` relative to `q`, agrees with `q` wherever the
   * two overlap (they overlap because -|p| < d < |q|).
   */
  predicate AgreesAt(p: string, q: string, d: int)
  {
    forall k :: 0 <= k < |q| && 0 <= k - d < |p| ==> q[k] == p[k - d]
  }

  /**
   * No placement of `p` that overlaps `q` agrees with it; then no
   * occurrence of `p` in any text can touch an inserted copy of `q`.
   */
  predicate NotAligned(p: string, q: string)
  {
    forall d :: -|p| < d < |q| ==> !AgreesAt(p, q, d)
  }

  /**
   * A test for NotAligned that looks at two characters per placement: every
   * placement of `p` starting inside `q` clashes on `p`'s first or second
   * character, and every placement starting before `q` clashes on `q`'s
   * first or second character.
   */
  predicate QuickNotAligned(p: string, q: string)
    requires p != [] && q != []
  {
    (forall d :: 0 <= d < |q| ==> q[d] != p[0] || (d + 1 < |q| && 1 < |p| && q[d + 1] != p[1]))
    && (forall s :: 1 <= s < |p| ==> q[0] != p[s] || (s + 1 < |p| && 1 < |q| && q[1] != p[s + 1]))
  }

  lemma QuickNotAlignedSound(p: string, q: string)
    requires p != [] && q != [] && QuickNotAligned(p, q)
    ensures NotAligned(p, q)
  {
    forall d | -|p| < d < |q|
      ensures !AgreesAt(p, q, d)
    {
      if d >= 0 {
        assert q[d] != p[0] || (d + 1 < |q| && 1 < |p| && q[d + 1] != p[1]);
        if q[d] != p[0] {
          assert q[d] != p[d - d];
        } else {
          assert 1 < |p| && d + 1 < |q| && q[d + 1] != p[1];
          assert q[d + 1] != p[d + 1 - d];
        }
      } else {
        var s := -d;
        assert 1 <= s < |p|;
        assert q[0] != p[s] || (s + 1 < |p| && 1 < |q| && q[1] != p[s + 1]);
        if q[0] != p[s] {
          assert q[0] != p[0 - d];
        } else {
          assert s + 1 < |p| && 1 < |q| && q[1] != p[s + 1];
          assert q[1] != p[1 - d];
        }
      }
    }
  }

  /** An occurrence that ends inside the left operand does not see the right one. */
  lemma OccursInLeft(u: string, v: string, w: string, p: string, j: int)
    requires j + |p| <= |u| && OccursAt(u + v, p, j)
    ensures OccursAt(u + w, p, j)
  {
    assert (u + v)[j..j + |p|] == u[j..j + |p|];
    assert (u + w)[j..j + |p|] == u[j..j + |p|];
  }

  /** An occurrence of `p` cannot overlap an inserted `q` it is not aligned with. */
  lemma NoStraddle(u: string, q: string, v: string, p: string, j: int)
    requires NotAligned(p, q) && |u| < j + |p| && j < |u| + |q|
    ensures !OccursAt(u + q + v, p, j)
  {
    if OccursAt(u + q + v, p, j) {
      var t := u + q + v;
      var d := j - |u|;
      forall k | 0 <= k < |q| && 0 <= k - d < |p|
        ensures q[k] == p[k - d]
      {
        assert t[|u| + k] == q[k];
        assert t[j..j + |p|][k - d] == t[j + k - d];
      }
      assert AgreesAt(p, q, d);
    }
  }

  /**
   * Replacing an occurrence of `p'` by `q` (with `p` not aligned to `q`)
   * cannot create an occurrence of `p` that was not there.
   */
  lemma SwapKeepsAbsent(u: string, pOld: string, q: string, v: string, p: string)
    requires q != [] && NotAligned(p, q) && !Occurs(u + pOld + v, p)
    ensures !Occurs(u + q + v, p)
  {
    if Occurs(u + q + v, p) {
      var j :| 0 <= j <= |u + q + v| - |p| && OccursAt(u + q + v, p, j);
      if j + |p| <= |u| {
        assert u + q + v == u + (q + v);
        assert u + pOld + v == u + (pOld + v);
        OccursInLeft(u, q + v, pOld + v, p, j);
      } else if j >= |u| + |q| {
        assert (u + q + v)[|u + q|..] == v;
        assert (u + pOld + v)[|u + pOld|..] == v;
        OccursPastPrefix(u + q + v, p, |u + q|, j);
        OccursInSuffix(u + pOld + v, p, |u + pOld|, j - |u + q|);
      } else {
        NoStraddle(u, q, v, p, j);
      }
    }
  }

  /** Generalised form of ReplaceKeepsAbsent, with a left context `u`. */
  lemma {:induction false} ReplaceKeepsAbsentAfter(u: string, s: string, pOld: string, q: string, p: string)
    requires pOld != [] && q != [] && NotAligned(p, q) && !Occurs(u + s, p)
    ensures !Occurs(u + ReplaceAll(s, pOld, q), p)
    decreases |s|
  {
    if |s| < |pOld| {
    } else if s[..|pOld|] == pOld {
      var rest := s[|pOld|..];
      ReplaceStepMatch(u, s, pOld, q);
      SwapKeepsAbsent(u, pOld, q, rest, p);
      ReplaceKeepsAbsentAfter(u + q, rest, pOld, q, p);
    } else {
      ReplaceStepSkip(u, s, pOld, q);
      ReplaceKeepsAbsentAfter(u + [s[0]], s[1..], pOld, q, p);
    }
  }

  /**
   * A later replacement whose text cannot overlap `p` keeps `p` out of a
   * text that was free of it.
   */
  lemma ReplaceKeepsAbsent(s: string, pOld: string, q: string, p: string)
    requires pOld != [] && q != [] && NotAligned(p, q) && !Occurs(s, p)
    ensures !Occurs(ReplaceAll(s, pOld, q), p)
  {
    assert [] + s == s;
    ReplaceKeepsAbsentAfter([], s, pOld, q, p);
    assert [] + ReplaceAll(s, pOld, q) == ReplaceAll(s, pOld, q);
  }

  /** No occurrence of `p` in `t` starts before index `k`. */
  predicate NoneStartsBefore(t: string, p: string, k: int)
  {
    forall j :: 0 <= j < k ==> !OccursAt(t, p, j)
  }

  /** No occurrence of `p` starts in a prefix that lacks `p`'s first character. */
  lemma HeadMissingNoneStarts(u: string, s: string, p: string)
    requires p != [] && p[0] !in u
    ensures NoneStartsBefore(u + s, p, |u|)
  {
    forall j | 0 <= j < |u|
      ensures !OccursAt(u + s, p, j)
    {
      assert (u + s)[j] == u[j];
      assert j + |p| <= |u + s| ==> (u + s)[j..j + |p|][0] == u[j];
    }
  }

  /** Text made of a prefix lacking `p`'s first character, then `p` itself. */
  lemma ReplaceAfterClearPrefix(u: string, p: string, q: string)
    requires p != [] && p[0] !in u
    ensures ReplaceAll(u + p, p, q) == u + q
  {
    HeadMissingNoneStarts(u, p, p);
    ReplaceSkipsClearPrefix(u, p, p, q);
    ReplaceWhole(p, q);
  }

  lemma NoneStartsBeforeTail(t: string, p: string, k: int)
    requires t != [] && NoneStartsBefore(t, p, k)
    ensures NoneStartsBefore(t[1..], p, k - 1)
  {
    forall j | 0 <= j < k - 1
      ensures !OccursAt(t[1..], p, j)
    {
      if OccursAt(t[1..], p, j) {
        OccursInSuffix(t, p, 1, j);
      }
    }
  }

  /** A prefix in which no occurrence starts is copied as it is. */
  lemma {:induction false} ReplaceSkipsClearPrefix(u: string, s: string, p: string, q: string)
    requires p != [] && NoneStartsBefore(u + s, p, |u|)
    ensures ReplaceAll(u + s, p, q) == u + ReplaceAll(s, p, q)
    decreases |u|
  {
    if u == [] {
      assert u + s == s;
    } else {
      var t := u + s;
      assert t[1..] == u[1..] + s;
      NoneStartsBeforeTail(t, p, |u|);
      ReplaceSkipsClearPrefix(u[1..], s, p, q);
      var r := ReplaceAll(t[1..], p, q);
      assert r == u[1..] + ReplaceAll(s, p, q);
      if |t| >= |p| {
        assert !OccursAt(t, p, 0);
        assert t[..|p|] != p;
        assert ReplaceAll(t, p, q) == [t[0]] + r;
      } else {
        assert ReplaceAll(t, p, q) == t;
        assert ReplaceAll(s, p, q) == s;
      }
      assert [t[0]] + (u[1..] + ReplaceAll(s, p, q)) == u + ReplaceAll(s, p, q);
    }
  }

  /** Generalised form of ReplaceRemovesPattern, with a left context `u`. */
  lemma {:induction false} ReplaceRemovesAfter(u: string, s: string, p: string, q: string)
    requires p != [] && q != [] && NotAligned(p, q) && NoneStartsBefore(u + s, p, |u|)
    ensures !Occurs(u + ReplaceAll(s, p, q), p)
    decreases |s|
  {
    if |s| < |p| {
    } else if s[..|p|] == p {
      ReplaceKeepsPrefixClear(u, s, p, q);
      ReplaceStepMatch(u, s, p, q);
      ReplaceRemovesAfter(u + q, s[|p|..], p, q);
    } else {
      SkipKeepsPrefixClear(u, s, p);
      ReplaceStepSkip(u, s, p, q);
      ReplaceRemovesAfter(u + [s[0]], s[1..], p, q);
    }
  }

  /** Skipping a character that does not start an occurrence keeps the scan clear. */
  lemma SkipKeepsPrefixClear(u: string, s: string, p: string)
    requires |p| <= |s| && s[..|p|] != p && NoneStartsBefore(u + s, p, |u|)
    ensures NoneStartsBefore((u + [s[0]]) + s[1..], p, |u| + 1)
  {
    var t := u + s;
    assert t == (u + [s[0]]) + s[1..];
    assert t[|u|..|u| + |p|] == s[..|p|];
    assert !OccursAt(t, p, |u|);
  }

  /** After rewriting a leading occurrence, none starts before the scan position. */
  lemma ReplaceKeepsPrefixClear(u: string, s: string, p: string, q: string)
    requires p != [] && |p| <= |s| && s[..|p|] == p && NotAligned(p, q)
    requires NoneStartsBefore(u + s, p, |u|)
    ensures NoneStartsBefore(u + q + s[|p|..], p, |u| + |q|)
  {
    var rest := s[|p|..];
    forall j | 0 <= j < |u| + |q|
      ensures !OccursAt(u + q + rest, p, j)
    {
      if j + |p| <= |u| {
        if OccursAt(u + q + rest, p, j) {
          assert u + q + rest == u + (q + rest);
          OccursInLeft(u, q + rest, s, p, j);
        }
      } else {
        NoStraddle(u, q, rest, p, j);
      }
    }
  }

  /**
   * When the replacement cannot overlap the pattern, replacing every
   * occurrence leaves none behind.
   */
  lemma ReplaceRemovesPattern(s: string, p: string, q: string)
    requires p != [] && q != [] && NotAligned(p, q)
    ensures !Occurs(ReplaceAll(s, p, q), p)
  {
    assert [] + s == s;
    ReplaceRemovesAfter([], s, p, q);
    assert [] + ReplaceAll(s, p, q) == ReplaceAll(s, p, q);
  }

  // ---------------------------------------------------------------------
  // JavaScript's split / join
  // ---------------------------------------------------------------------

  /** `s.split(sep)` for a non-empty separator. */
  function Split(s: string, sep: string): (parts: seq<string>)
    requires sep != []
    ensures |parts| >= 1
    decreases |s|
  {
    if |s| < |sep| then [s]
    else if s[..|sep|] == sep then [[]] + Split(s[|sep|..], sep)
    else
      var rest := Split(s[1..], sep);
      [[s[0]] + rest[0]] + rest[1..]
  }

  /** `parts.join(sep)`. */
  function Join(parts: seq<string>, sep: string): string
    requires |parts| >= 1
    decreases |parts|
  {
    if |parts| == 1 then parts[0] else parts[0] + sep + Join(parts[1..], sep)
  }

  /** The split/join idiom of the JavaScript fixers is ReplaceAll. */
  lemma {:induction false} SplitJoinIsReplaceAll(s: string, sep: string, q: string)
    requires sep != []
    ensures Join(Split(s, sep), q) == ReplaceAll(s, sep, q)
    decreases |s|
  {
    if |s| < |sep| {
    } else if s[..|sep|] == sep {
      var rest := Split(s[|sep|..], sep);
      SplitJoinIsReplaceAll(s[|sep|..], sep, q);
      assert Split(s, sep) == [[]] + rest;
      assert ([[]] + rest)[1..] == rest;
      assert Join([[]] + rest, q) == [] + q + Join(rest, q);
      assert ReplaceAll(s, sep, q) == q + ReplaceAll(s[|sep|..], sep, q);
    } else {
      var rest := Split(s[1..], sep);
      SplitJoinIsReplaceAll(s[1..], sep, q);
      var parts := [[s[0]] + rest[0]] + rest[1..];
      assert Split(s, sep) == parts;
      assert ReplaceAll(s, sep, q) == [s[0]] + ReplaceAll(s[1..], sep, q);
      if |rest| == 1 {
        assert Join(parts, q) == [s[0]] + rest[0];
      } else {
        assert parts[1..] == rest[1..];
        assert Join(rest, q) == rest[0] + q + Join(rest[1..], q);
        assert Join(parts, q) == ([s[0]] + rest[0]) + q + Join(rest[1..], q);
      }
    }
  }

  /** Splitting yields one more piece than there are occurrences. */
  lemma {:induction false} SplitPieces(s: string, sep: string)
    requires sep != []
    ensures |Split(s, sep)| == Count(s, sep) + 1
    decreases |s|
  {
    if |s| < |sep| {
    } else if s[..|sep|] == sep {
      SplitPieces(s[|sep|..], sep);
    } else {
      SplitPieces(s[1..], sep);
    }
  }

  // ---------------------------------------------------------------------
  // Single characters
  // ---------------------------------------------------------------------

  /** Counting a one-character pattern counts that character's occurrences. */
  lemma {:induction false} CountChar(s: string, c: char)
    ensures Count(s, [c]) == multiset(s)[c]
    decreases |s|
  {
    if s != [] {
      CountChar(s[1..], c);
      assert s == [s[0]] + s[1..];
      assert s[..1] == [s[0]];
      assert s[1..] == s[|[c]|..];
    }
  }

  /** Replacing one character by another maps the text character by character. */
  lemma {:induction false} ReplaceCharMap(s: string, c: char, d: char)
    ensures |ReplaceAll(s, [c], [d])| == |s|
    ensures forall k :: 0 <= k < |s| ==> ReplaceAll(s, [c], [d])[k] == (if s[k] == c then d else s[k])
    decreases |s|
  {
    if s != [] {
      ReplaceCharMap(s[1..], c, d);
      var r := ReplaceAll(s, [c], [d]);
      var rest := ReplaceAll(s[1..], [c], [d]);
      assert s[..1] == [s[0]];
      assert s[1..] == s[|[c]|..];
      assert r == [if s[0] == c then d else s[0]] + rest;
      forall k | 1 <= k < |s|
        ensures r[k] == (if s[k] == c then d else s[k])
      {
        assert r[k] == rest[k - 1] && s[1..][k - 1] == s[k];
      }
    }
  }
}
