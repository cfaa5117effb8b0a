/**
 * The JavaScript array built-ins the blog scripts rely on: `slice` with
 * its clamping of indices, `filter`, which keeps the elements a test
 * accepts in their order, `some` over `includes`, and `sort` with its
 * default order on strings.
 */
module JsArrays {

  /** Where a `slice` index lands in an array of length `n`: counted from the end when negative, then clamped. */
  function SliceIndex(k: int, n: nat): (r: nat)
    ensures r <= n
    ensures 0 <= k <= n ==> r == k
    ensures n < k ==> r == n
    ensures k < 0 ==> r == (if n + k < 0 then 0 else n + k)
  {
    if k < 0 then (if n + k < 0 then 0 else n + k)
    else if k <= n then k
    else n
  }

  /** `xs.slice(start, end)`. */
  function Slice<T>(xs: seq<T>, start: int, end: int): (r: seq<T>)
    ensures |r| <= |xs|
    ensures SliceIndex(start, |xs|) + |r| <= |xs|
    ensures r == xs[SliceIndex(start, |xs|)..SliceIndex(start, |xs|) + |r|]
  {
    var s := SliceIndex(start, |xs|);
    var e := SliceIndex(end, |xs|);
    if e <= s then [] else xs[s..e]
  }

  /** `xs.slice(0, limit)` for a limit that is not negative: the first `limit` elements, or all of them. */
  lemma SlicePrefix<T>(xs: seq<T>, limit: int)
    requires 0 <= limit
    ensures Slice(xs, 0, limit) == xs[..if limit <= |xs| then limit else |xs|]
  {
  }

  /**
   * `xs.slice(start, end)` for indices that are not negative: nothing when
   * `start` is past the end, else the elements from `start` up to `end` or
   * the end of the array, whichever comes first.
   */
  lemma SliceWindow<T>(xs: seq<T>, start: nat, end: nat)
    requires start <= end
    ensures start >= |xs| ==> Slice(xs, start, end) == []
    ensures start < |xs| ==> Slice(xs, start, end) == xs[start..if end <= |xs| then end else |xs|]
    ensures |Slice(xs, start, end)| <= end - start
  {
  }

  /** `xs.filter(p)`. */
  function Filter<T(==)>(xs: seq<T>, p: T -> bool): (r: seq<T>)
    ensures |r| <= |xs|
    ensures forall i :: 0 <= i < |r| ==> p(r[i])
    ensures forall i :: 0 <= i < |r| ==> r[i] in xs
    ensures forall i :: 0 <= i < |xs| && p(xs[i]) ==> xs[i] in r
  {
    if xs == [] then []
    else (if p(xs[0]) then [xs[0]] else []) + Filter(xs[1..], p)
  }

  /** `r` is `xs` with some elements left out, the rest in their order. */
  predicate Subsequence<T(==)>(r: seq<T>, xs: seq<T>)
  {
    if r == [] then true
    else if xs == [] then false
    else (r[0] == xs[0] && Subsequence(r[1..], xs[1..])) || Subsequence(r, xs[1..])
  }

  /**
   * `filter` keeps the elements in their order, and keeps each element
   * the test accepts as often as it occurs and drops every other.
   */
  lemma {:induction false} FilterKeepsOrder<T>(xs: seq<T>, p: T -> bool)
    ensures Subsequence(Filter(xs, p), xs)
    ensures forall x :: multiset(Filter(xs, p))[x] == if p(x) then multiset(xs)[x] else 0
  {
    if xs != [] {
      FilterKeepsOrder(xs[1..], p);
      var rest := Filter(xs[1..], p);
      assert xs == [xs[0]] + xs[1..];
      if p(xs[0]) {
        assert Filter(xs, p) == [xs[0]] + rest;
        assert (Filter(xs, p))[1..] == rest;
      } else {
        assert Filter(xs, p) == rest;
        SubsequenceOfTail(rest, xs);
      }
    }
  }

  /** A subsequence of the tail is a subsequence of the whole. */
  lemma SubsequenceOfTail<T>(r: seq<T>, xs: seq<T>)
    requires xs != [] && Subsequence(r, xs[1..])
    ensures Subsequence(r, xs)
  {
  }

  /** `r` holds exactly the elements of `xs` that `p` accepts, as often as they occur there and in their order. */
  ghost predicate FilteredFrom<T(!new)>(r: seq<T>, xs: seq<T>, p: T -> bool)
  {
    Subsequence(r, xs) && forall x :: multiset(r)[x] == if p(x) then multiset(xs)[x] else 0
  }

  /** A prefix of a subsequence is a subsequence. */
  lemma {:induction false} SubsequencePrefix<T>(r: seq<T>, xs: seq<T>, k: nat)
    requires Subsequence(r, xs) && k <= |r|
    ensures Subsequence(r[..k], xs)
    decreases |xs|
  {
    if k > 0 {
      assert r != [] && xs != [];
      if r[0] == xs[0] && Subsequence(r[1..], xs[1..]) {
        SubsequencePrefix(r[1..], xs[1..], k - 1);
        assert r[..k][1..] == r[1..][..k - 1];
      } else {
        SubsequencePrefix(r, xs[1..], k);
        SubsequenceOfTail(r[..k], xs);
      }
    }
  }

  /** `xs.some(x => ys.includes(x))`. */
  predicate AnyIn<T(==)>(xs: seq<T>, ys: seq<T>)
  {
    xs != [] && (xs[0] in ys || AnyIn(xs[1..], ys))
  }

  /** `some` over `includes` holds exactly when the two arrays share an element. */
  lemma {:induction false} AnyInIff<T>(xs: seq<T>, ys: seq<T>)
    ensures AnyIn(xs, ys) <==> exists i :: 0 <= i < |xs| && xs[i] in ys
  {
    if xs != [] {
      AnyInIff(xs[1..], ys);
      if exists i :: 0 <= i < |xs| && xs[i] in ys {
        var i :| 0 <= i < |xs| && xs[i] in ys;
        if i > 0 {
          assert xs[1..][i - 1] == xs[i];
        }
      }
      if exists i :: 0 <= i < |xs[1..]| && xs[1..][i] in ys {
        var i :| 0 <= i < |xs[1..]| && xs[1..][i] in ys;
        assert xs[i + 1] in ys;
      }
    }
  }

  /**
   * The order `sort` uses by default on strings: comparing character by
   * character, a proper prefix coming first.
   */
  predicate Precedes(a: string, b: string)
  {
    if a == [] then b != []
    else if b == [] then false
    else if a[0] != b[0] then a[0] < b[0]
    else Precedes(a[1..], b[1..])
  }

  lemma {:induction false} PrecedesIrreflexive(a: string)
    ensures !Precedes(a, a)
  {
    if a != [] {
      PrecedesIrreflexive(a[1..]);
    }
  }

  lemma {:induction false} PrecedesTransitive(a: string, b: string, c: string)
    requires Precedes(a, b) && Precedes(b, c)
    ensures Precedes(a, c)
  {
    if a != [] && a[0] == b[0] && b[0] == c[0] {
      PrecedesTransitive(a[1..], b[1..], c[1..]);
    }
  }

  lemma {:induction false} PrecedesTotal(a: string, b: string)
    requires a != b
    ensures Precedes(a, b) || Precedes(b, a)
  {
    if a != [] && b != [] && a[0] == b[0] {
      assert a == [a[0]] + a[1..] && b == [b[0]] + b[1..];
      PrecedesTotal(a[1..], b[1..]);
    }
  }

  /** Every string of `xs` precedes the next: sorted and free of duplicates. */
  predicate StrictlyAscending(xs: seq<string>)
  {
    forall i, j :: 0 <= i < j < |xs| ==> Precedes(xs[i], xs[j])
  }

  /** `m` comes first among the strings of `s`. */
  predicate IsLeast(m: string, s: set<string>)
  {
    m in s && forall y :: y in s ==> y == m || Precedes(m, y)
  }

  /** A non-empty set of strings has a first string. */
  lemma LeastExists(s: set<string>)
    requires s != {}
    ensures exists m :: IsLeast(m, s)
    decreases |s|
  {
    var x :| x in s;
    if s - {x} == {} {
      forall y | y in s
        ensures y == x
      {
        assert y == x || y in s - {x};
      }
      assert IsLeast(x, s);
    } else {
      LeastExists(s - {x});
      var m :| IsLeast(m, s - {x});
      if Precedes(m, x) {
        assert IsLeast(m, s);
      } else {
        PrecedesTotal(m, x);
        forall y | y in s
          ensures y == x || Precedes(x, y)
        {
          if y != x && y != m {
            PrecedesTransitive(x, m, y);
          }
        }
        assert IsLeast(x, s);
      }
    }
  }

  /** `Array.from(s).sort()` for a set of strings: its strings, each once, in ascending order. */
  method SortedFromSet(s: set<string>) returns (r: seq<string>)
    ensures StrictlyAscending(r)
    ensures forall x :: x in r <==> x in s
  {
    var rest := s;
    r := [];
    while rest != {}
      invariant forall x :: x in s <==> x in r || x in rest
      invariant forall i :: 0 <= i < |r| ==> r[i] !in rest
      invariant StrictlyAscending(r)
      invariant forall i, y :: 0 <= i < |r| && y in rest ==> Precedes(r[i], y)
      decreases |rest|
    {
      LeastExists(rest);
      var m :| IsLeast(m, rest);
      r := r + [m];
      rest := rest - {m};
    }
  }

  /** Two ascending, duplicate-free lists of the same strings are equal: the sorted list of a set is determined by the set. */
  lemma {:induction false} AscendingUnique(a: seq<string>, b: seq<string>)
    requires StrictlyAscending(a) && StrictlyAscending(b)
    requires forall x :: x in a <==> x in b
    ensures a == b
    decreases |a|
  {
    if a != [] {
      assert a[0] in b;
    }
    if b != [] {
      assert b[0] in a;
    }
    if a != [] {
      if a[0] != b[0] {
        var i :| 0 <= i < |b| && b[i] == a[0];
        var j :| 0 <= j < |a| && a[j] == b[0];
        assert Precedes(b[0], a[0]) by {
          assert i > 0;
        }
        assert Precedes(a[0], b[0]) by {
          assert j > 0;
        }
        PrecedesTransitive(a[0], b[0], a[0]);
        PrecedesIrreflexive(a[0]);
      }
      forall x
        ensures x in a[1..] <==> x in b[1..]
      {
        AscendingTail(a, x);
        AscendingTail(b, x);
      }
      AscendingUnique(a[1..], b[1..]);
      assert a == [a[0]] + a[1..] && b == [b[0]] + b[1..];
    }
  }

  /** The tail of an ascending list holds its strings other than the first. */
  lemma AscendingTail(a: seq<string>, x: string)
    requires StrictlyAscending(a) && a != []
    ensures x in a[1..] <==> x in a && x != a[0]
  {
    if x in a[1..] {
      var k :| 0 <= k < |a[1..]| && a[1..][k] == x;
      assert Precedes(a[0], a[k + 1]);
      PrecedesIrreflexive(a[0]);
    }
    if x in a && x != a[0] {
      var k :| 0 <= k < |a| && a[k] == x;
      assert a[1..][k - 1] == x;
    }
  }
}
