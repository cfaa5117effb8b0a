/**
 * Ordered literal rewriting: a list of (bad, good) rules applied one after
 * the other, each rule replacing every occurrence of its bad string in the
 * text the previous rules left behind. This is the common shape of the
 * encoding fixers and of the literal pass of the link fixer.
 */
module Rewrite {
  import opened Strings

  /** One literal correction: every `bad` becomes `good`. */
  datatype Rule = Rule(bad: string, good: string)

  /** Every rule has a non-empty bad string (an empty one would match everywhere). */
  predicate WellFormed(rules: seq<Rule>)
  {
    forall i :: 0 <= i < |rules| ==> rules[i].bad != []
  }

  /** The text after applying `rules` in order to `s`. */
  function ApplyAll(rules: seq<Rule>, s: string): string
    requires WellFormed(rules)
    decreases |rules|
  {
    if rules == [] then s
    else ApplyAll(rules[1..], ReplaceAll(s, rules[0].bad, rules[0].good))
  }

  /** The number of occurrences the rules rewrite, each counted when its rule runs. */
  function Hits(rules: seq<Rule>, s: string): nat
    requires WellFormed(rules)
    decreases |rules|
  {
    if rules == [] then 0
    else Count(s, rules[0].bad) + Hits(rules[1..], ReplaceAll(s, rules[0].bad, rules[0].good))
  }

  /** Applying one more rule at the end. */
  lemma {:induction false} ApplyAllSnoc(rules: seq<Rule>, r: Rule, s: string)
    requires WellFormed(rules) && r.bad != []
    ensures WellFormed(rules + [r])
    ensures ApplyAll(rules + [r], s) == ReplaceAll(ApplyAll(rules, s), r.bad, r.good)
    ensures Hits(rules + [r], s) == Hits(rules, s) + Count(ApplyAll(rules, s), r.bad)
    decreases |rules|
  {
    assert WellFormed(rules + [r]) by {
      forall i | 0 <= i < |rules + [r]|
        ensures (rules + [r])[i].bad != []
      {
        if i < |rules| {
          assert (rules + [r])[i] == rules[i];
        }
      }
    }
    if rules == [] {
      assert [] + [r] == [r];
      assert [r][1..] == [];
    } else {
      assert (rules + [r])[1..] == rules[1..] + [r];
      ApplyAllSnoc(rules[1..], r, ReplaceAll(s, rules[0].bad, rules[0].good));
    }
  }

  /** Applying a concatenation of rule lists is applying one after the other. */
  lemma {:induction false} ApplyAllConcat(a: seq<Rule>, b: seq<Rule>, s: string)
    requires WellFormed(a) && WellFormed(b)
    ensures WellFormed(a + b)
    ensures ApplyAll(a + b, s) == ApplyAll(b, ApplyAll(a, s))
    ensures Hits(a + b, s) == Hits(a, s) + Hits(b, ApplyAll(a, s))
    decreases |a|
  {
    assert WellFormed(a + b) by {
      forall i | 0 <= i < |a + b|
        ensures (a + b)[i].bad != []
      {
        if i < |a| {
          assert (a + b)[i] == a[i];
        } else {
          assert (a + b)[i] == b[i - |a|];
        }
      }
    }
    if a == [] {
      assert a + b == b;
    } else {
      assert (a + b)[1..] == a[1..] + b;
      ApplyAllConcat(a[1..], b, ReplaceAll(s, a[0].bad, a[0].good));
    }
  }

  /** Text containing none of the bad strings is left alone and nothing is counted. */
  lemma {:induction false} ApplyAllNoneOccurs(rules: seq<Rule>, s: string)
    requires WellFormed(rules)
    requires forall i :: 0 <= i < |rules| ==> !Occurs(s, rules[i].bad)
    ensures ApplyAll(rules, s) == s
    ensures Hits(rules, s) == 0
    decreases |rules|
  {
    if rules != [] {
      assert !Occurs(s, rules[0].bad);
      ReplaceAbsent(s, rules[0].bad, rules[0].good);
      CountZeroIff(s, rules[0].bad);
      assert forall i :: 0 <= i < |rules[1..]| ==> rules[1..][i] == rules[i + 1];
      ApplyAllNoneOccurs(rules[1..], s);
    }
  }

  /** Nothing counted means nothing changed. */
  lemma {:induction false} NoHitsUnchanged(rules: seq<Rule>, s: string)
    requires WellFormed(rules) && Hits(rules, s) == 0
    ensures ApplyAll(rules, s) == s
    decreases |rules|
  {
    if rules != [] {
      CountZeroIff(s, rules[0].bad);
      ReplaceAbsent(s, rules[0].bad, rules[0].good);
      NoHitsUnchanged(rules[1..], s);
    }
  }

  /** Nothing counted means no bad string occurred in the text to begin with. */
  lemma {:induction false} NoHitsNoneOccurs(rules: seq<Rule>, s: string)
    requires WellFormed(rules) && Hits(rules, s) == 0
    ensures forall i :: 0 <= i < |rules| ==> !Occurs(s, rules[i].bad)
    decreases |rules|
  {
    if rules != [] {
      CountZeroIff(s, rules[0].bad);
      ReplaceAbsent(s, rules[0].bad, rules[0].good);
      NoHitsNoneOccurs(rules[1..], s);
      forall i | 1 <= i < |rules|
        ensures !Occurs(s, rules[i].bad)
      {
        assert rules[i] == rules[1..][i - 1];
      }
    }
  }

  /** Every rule's good string is non-empty and cannot overlap `p`. */
  predicate Avoids(p: string, rules: seq<Rule>)
  {
    forall i :: 0 <= i < |rules| ==> rules[i].good != [] && NotAligned(p, rules[i].good)
  }

  lemma AvoidsConcat(p: string, a: seq<Rule>, b: seq<Rule>)
    requires Avoids(p, a) && Avoids(p, b)
    ensures Avoids(p, a + b)
  {
    forall i | 0 <= i < |a + b|
      ensures (a + b)[i].good != [] && NotAligned(p, (a + b)[i].good)
    {
      if i < |a| {
        assert (a + b)[i] == a[i];
      } else {
        assert (a + b)[i] == b[i - |a|];
      }
    }
  }

  /** Rules whose good strings avoid `p` never bring `p` into a text free of it. */
  lemma {:induction false} ApplyAllKeepsAbsent(rules: seq<Rule>, s: string, p: string)
    requires WellFormed(rules) && Avoids(p, rules) && !Occurs(s, p)
    ensures !Occurs(ApplyAll(rules, s), p)
    decreases |rules|
  {
    if rules != [] {
      ReplaceKeepsAbsent(s, rules[0].bad, rules[0].good, p);
      assert forall i :: 0 <= i < |rules[1..]| ==> rules[1..][i] == rules[i + 1];
      ApplyAllKeepsAbsent(rules[1..], ReplaceAll(s, rules[0].bad, rules[0].good), p);
    }
  }

  /**
   * Once the rule for `p` has run, `p` is gone for good, provided that
   * neither its own good string nor any later one can overlap `p`.
   */
  lemma ApplyAllRemoves(pre: seq<Rule>, post: seq<Rule>, s: string, p: string)
    requires WellFormed(pre) && WellFormed(post) && post != [] && post[0].bad == p
    requires Avoids(p, post)
    ensures WellFormed(pre + post)
    ensures !Occurs(ApplyAll(pre + post, s), p)
  {
    ApplyAllConcat(pre, post, s);
    var t := ApplyAll(pre, s);
    assert NotAligned(p, post[0].good);
    ReplaceRemovesPattern(t, p, post[0].good);
    assert forall i :: 0 <= i < |post[1..]| ==> post[1..][i] == post[i + 1];
    ApplyAllKeepsAbsent(post[1..], ReplaceAll(t, p, post[0].good), p);
  }

  /**
   * A rule's bad string, given as the whole text, comes out as its good
   * string when no earlier bad string occurs in it and no later bad string
   * occurs in the good one.
   */
  lemma RuleFires(pre: seq<Rule>, r: Rule, post: seq<Rule>)
    requires WellFormed(pre) && r.bad != [] && WellFormed(post)
    requires forall i :: 0 <= i < |pre| ==> !Occurs(r.bad, pre[i].bad)
    requires forall i :: 0 <= i < |post| ==> !Occurs(r.good, post[i].bad)
    ensures WellFormed(pre + [r] + post)
    ensures ApplyAll(pre + [r] + post, r.bad) == r.good
  {
    ApplyAllSnoc(pre, r, r.bad);
    ApplyAllConcat(pre + [r], post, r.bad);
    ApplyAllNoneOccurs(pre, r.bad);
    ReplaceWhole(r.bad, r.good);
    ApplyAllNoneOccurs(post, r.good);
  }

  /**
   * The same when the rule's bad string follows a prefix that lacks its
   * first character: the prefix stays and the bad string becomes the good one.
   */
  lemma RuleFiresAfter(pre: seq<Rule>, u: string, r: Rule, post: seq<Rule>)
    requires WellFormed(pre) && r.bad != [] && WellFormed(post) && r.bad[0] !in u
    requires forall i :: 0 <= i < |pre| ==> !Occurs(u + r.bad, pre[i].bad)
    requires forall i :: 0 <= i < |post| ==> !Occurs(u + r.good, post[i].bad)
    ensures WellFormed(pre + [r] + post)
    ensures ApplyAll(pre + [r] + post, u + r.bad) == u + r.good
  {
    ApplyAllSnoc(pre, r, u + r.bad);
    ApplyAllConcat(pre + [r], post, u + r.bad);
    ApplyAllNoneOccurs(pre, u + r.bad);
    ReplaceAfterClearPrefix(u, r.bad, r.good);
    ApplyAllNoneOccurs(post, u + r.good);
  }

  /**
   * The loop shared by the Python fixers: for each rule in order, if its
   * bad string occurs, count its occurrences and replace them all.
   */
  method ReplaceCounting(rules: seq<Rule>, content: string) returns (text: string, hits: nat)
    requires WellFormed(rules)
    ensures text == ApplyAll(rules, content)
    ensures hits == Hits(rules, content)
  {
    hits := 0;
    text := content;
    for i := 0 to |rules|
      invariant WellFormed(rules[..i])
      invariant text == ApplyAll(rules[..i], content)
      invariant hits == Hits(rules[..i], content)
    {
      var bad, good := rules[i].bad, rules[i].good;
      assert rules[..i + 1] == rules[..i] + [rules[i]];
      ApplyAllSnoc(rules[..i], rules[i], content);
      if Occurs(text, bad) {
        var count := Count(text, bad);
        text := ReplaceAll(text, bad, good);
        hits := hits + count;
      } else {
        ReplaceAbsent(text, bad, good);
        CountZeroIff(text, bad);
      }
    }
    assert rules[..|rules|] == rules;
  }
}
