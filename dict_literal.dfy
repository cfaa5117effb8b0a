/**
 * A Python dictionary built from a literal `{k1: v1, k2: v2, ...}`: a key
 * keeps the position of its first appearance and the value of its last,
 * and iterating over `items()` visits the keys in that order.
 */
module DictLiteral {
  import opened Options
  import opened Rewrite

  /** The keys of a list of entries, in order. */
  function Keys(d: seq<Rule>): (ks: seq<string>)
    ensures |ks| == |d|
    ensures forall i :: 0 <= i < |d| ==> ks[i] == d[i].bad
  {
    seq(|d|, i requires 0 <= i < |d| => d[i].bad)
  }

  /** No key appears twice. */
  predicate UniqueKeys(d: seq<Rule>)
  {
    forall i, j :: 0 <= i < j < |d| ==> d[i].bad != d[j].bad
  }

  /** The value stored for `k`, if any. */
  function Lookup(d: seq<Rule>, k: string): Option<string>
  {
    if d == [] then None else if d[0].bad == k then Some(d[0].good) else Lookup(d[1..], k)
  }

  /** `d[k] = v`: overwrite the value in place, or append a new entry. */
  function Assign(d: seq<Rule>, r: Rule): (d': seq<Rule>)
    ensures forall i :: 0 <= i < |d'| ==> d'[i] == r || d'[i] in d
  {
    if d == [] then [r]
    else if d[0].bad == r.bad then [r] + d[1..]
    else [d[0]] + Assign(d[1..], r)
  }

  /** The dictionary a literal denotes, entries in iteration order. */
  function FromLiteral(lit: seq<Rule>): (d: seq<Rule>)
    ensures forall i :: 0 <= i < |d| ==> d[i] in lit
  {
    if lit == [] then []
    else
      var d := FromLiteral(lit[..|lit| - 1]);
      assert forall r :: r in d ==> r in lit;
      Assign(d, lit[|lit| - 1])
  }

  /** Reference definition of the key order: each key at its first appearance. */
  function FirstAppearances(ks: seq<string>): seq<string>
  {
    if ks == [] then []
    else
      var prior := FirstAppearances(ks[..|ks| - 1]);
      if ks[|ks| - 1] in prior then prior else prior + [ks[|ks| - 1]]
  }

  /** Reference definition of the stored value: the last one written. */
  function LastValue(lit: seq<Rule>, k: string): Option<string>
  {
    if lit == [] then None
    else if lit[|lit| - 1].bad == k then Some(lit[|lit| - 1].good)
    else LastValue(lit[..|lit| - 1], k)
  }

  lemma {:induction false} AssignKeys(d: seq<Rule>, r: Rule)
    ensures Keys(Assign(d, r)) == if r.bad in Keys(d) then Keys(d) else Keys(d) + [r.bad]
  {
    if d != [] {
      if d[0].bad == r.bad {
        assert Keys([r] + d[1..]) == Keys(d);
      } else {
        AssignKeys(d[1..], r);
        assert Keys(d) == [d[0].bad] + Keys(d[1..]);
        assert Keys([d[0]] + Assign(d[1..], r)) == [d[0].bad] + Keys(Assign(d[1..], r));
      }
    }
  }

  lemma {:induction false} AssignLookup(d: seq<Rule>, r: Rule, k: string)
    ensures Lookup(Assign(d, r), k) == if k == r.bad then Some(r.good) else Lookup(d, k)
  {
    if d != [] {
      if d[0].bad == r.bad {
        assert ([r] + d[1..])[1..] == d[1..];
      } else {
        AssignLookup(d[1..], r, k);
        assert ([d[0]] + Assign(d[1..], r))[1..] == Assign(d[1..], r);
      }
    }
  }

  /** Assignment keeps the keys unique. */
  lemma AssignUnique(d: seq<Rule>, r: Rule)
    requires UniqueKeys(d)
    ensures UniqueKeys(Assign(d, r))
  {
    AssignKeys(d, r);
    var d' := Assign(d, r);
    var ks, ks' := Keys(d), Keys(d');
    if r.bad in ks {
      forall i, j | 0 <= i < j < |d'|
        ensures d'[i].bad != d'[j].bad
      {
        assert d'[i].bad == ks'[i] == ks[i] == d[i].bad;
        assert d'[j].bad == ks'[j] == ks[j] == d[j].bad;
      }
    } else {
      assert ks' == ks + [r.bad];
      forall i, j | 0 <= i < j < |d'|
        ensures d'[i].bad != d'[j].bad
      {
        assert d'[i].bad == ks'[i] == ks[i] == d[i].bad;
        if j < |d| {
          assert d'[j].bad == ks'[j] == ks[j] == d[j].bad;
        } else {
          assert d'[j].bad == r.bad;
        }
      }
    }
  }

  /** Each key appears once in the dictionary, in the order of first appearance. */
  lemma {:induction false} FromLiteralKeys(lit: seq<Rule>)
    ensures Keys(FromLiteral(lit)) == FirstAppearances(Keys(lit))
    ensures UniqueKeys(FromLiteral(lit))
  {
    if lit != [] {
      var init := lit[..|lit| - 1];
      var r := lit[|lit| - 1];
      FromLiteralKeys(init);
      assert Keys(lit)[..|lit| - 1] == Keys(init);
      AssignKeys(FromLiteral(init), r);
      AssignUnique(FromLiteral(init), r);
    }
  }

  /** The stored value of every key is the last one the literal gives it. */
  lemma {:induction false} FromLiteralLookup(lit: seq<Rule>, k: string)
    ensures Lookup(FromLiteral(lit), k) == LastValue(lit, k)
  {
    if lit != [] {
      FromLiteralLookup(lit[..|lit| - 1], k);
      AssignLookup(FromLiteral(lit[..|lit| - 1]), lit[|lit| - 1], k);
    }
  }

  /** With unique keys, every entry is what Lookup finds for its key. */
  lemma {:induction false} LookupEntry(d: seq<Rule>, i: nat)
    requires UniqueKeys(d) && i < |d|
    ensures Lookup(d, d[i].bad) == Some(d[i].good)
  {
    if i > 0 {
      assert d[0].bad != d[i].bad;
      assert d[1..][i - 1] == d[i];
      LookupEntry(d[1..], i - 1);
    }
  }

  /** A literal's last value for a key can be read off a suffix mentioning it. */
  lemma {:induction false} LastValueConcat(a: seq<Rule>, b: seq<Rule>, k: string)
    ensures LastValue(a + b, k) == if LastValue(b, k).Some? then LastValue(b, k) else LastValue(a, k)
  {
    if b != [] {
      assert (a + b)[..|a + b| - 1] == a + b[..|b| - 1];
      assert (a + b)[|a + b| - 1] == b[|b| - 1];
      LastValueConcat(a, b[..|b| - 1], k);
    } else {
      assert a + b == a;
    }
  }

  /** A literal that never writes `k` gives it no value. */
  lemma {:induction false} LastValueAbsent(lit: seq<Rule>, k: string)
    requires forall i :: 0 <= i < |lit| ==> lit[i].bad != k
    ensures LastValue(lit, k) == None
  {
    if lit != [] {
      assert forall i :: 0 <= i < |lit| - 1 ==> lit[..|lit| - 1][i] == lit[i];
      LastValueAbsent(lit[..|lit| - 1], k);
    }
  }

  /** A key Lookup finds has an entry holding the value found. */
  lemma {:induction false} LookupFound(d: seq<Rule>, k: string, v: string)
    requires Lookup(d, k) == Some(v)
    ensures Rule(k, v) in d
  {
    if d[0].bad != k {
      LookupFound(d[1..], k, v);
    }
  }

  /** Entries after the last write of `k` do not change its value. */
  lemma LastValueAfter(a: seq<Rule>, b: seq<Rule>, k: string)
    requires forall i :: 0 <= i < |b| ==> b[i].bad != k
    ensures LastValue(a + b, k) == LastValue(a, k)
  {
    LastValueConcat(a, b, k);
    LastValueAbsent(b, k);
  }
}
