/**
 * Two defects of the heading pass's write-back. It drops the aside blocks
 * of every page it rewrites: the markers that stood in for them are
 * deleted instead of being replaced by the blocks they stand for. And it
 * hands the new main content to `replace` as replacement text, so the `$`
 * forms in it are expanded instead of being written as they stand.
 */
module HeadingFindings {
  import opened Options
  import opened Strings
  import opened JsStrings
  import opened HeadingFix

  /** Deleting a lone marker between marker-free texts joins them. */
  lemma DeleteMarker(u: string, w: string, marker: string)
    requires LoneOpening(marker) && !Occurs(u, marker) && !Occurs(w, marker)
    ensures ReplaceAll(u + marker + w, marker, "") == u + w
  {
    MarkerFirst(u, w, marker);
    assert u + marker + w == u + (marker + w);
    ReplaceSkipsClearPrefix(u, marker + w, marker, "");
    assert (marker + w)[..|marker|] == marker && (marker + w)[|marker|..] == w;
    ReplaceAbsent(w, marker, "");
  }

  /** Restoring a lone marker between marker-free texts puts the block between them. */
  lemma RestoreMarker(u: string, w: string, block: string)
    requires !Occurs(u, Marker)
    ensures RestoreAsides(u + Marker + w, Marker, [block]) == u + block + w
  {
    MarkerIsLone();
    RestoreStep(u, w, Marker, block, []);
    assert [block] + [] == [block];
  }

  /** The main content a page's main element holds. */
  function MainOf(content: string): string
    requires MainSpan(content).Some?
  {
    content[MainSpan(content).value.0..MainSpan(content).value.1]
  }

  /**
   * Whenever the line pass changes a page whose main content held one
   * aside block, and its output is `u`, the marker, then `w`, the page is
   * written with `u + w` in place of the main content: the block is gone.
   * Restoring the marker instead writes `u`, the block, then `w`.
   */
  lemma AsideDropped(content: string, u: string, w: string)
    requires MainSpan(content).Some?
    requires |AsidesOf(MainOf(content))| == 1
    requires NewMain(RemoveAsides(MainOf(content))) != RemoveAsides(MainOf(content))
    requires NewMain(RemoveAsides(MainOf(content))) == u + Marker + w
    requires !Occurs(u, Marker) && !Occurs(w, Marker)
    ensures FixedFile(content) == Some(ReplaceFirst(content, MainOf(content), u + w))
    ensures FixedFileKeepingAsides(content) ==
      Some(ReplaceFirst(content, MainOf(content), u + AsidesOf(MainOf(content))[0] + w))
  {
    var m := MainOf(content);
    var mc := RemoveAsides(m);
    WrittenForms(content);
    MarkerIsLone();
    DeleteMarker(u, w, Marker);
    var asides := AsidesOf(m);
    assert asides == [asides[0]];
    RestoreMarker(u, w, asides[0]);
  }

  /** All three versions write the page with the main content replaced by the restored line-pass output. */
  lemma WrittenForms(content: string)
    requires MainSpan(content).Some?
    ensures var m := MainOf(content);
            var newMain := NewMain(RemoveAsides(m));
            newMain != RemoveAsides(m) ==>
              FixedFile(content) == Some(ReplaceFirst(content, m, ReplaceAll(newMain, Marker, "")))
              && FixedFileKeepingAsides(content) == Some(ReplaceFirst(content, m, RestoreAsides(newMain, Marker, AsidesOf(m))))
              && FixedFileLiteral(content) == Some(ReplaceFirst(content, m, EscapeDollars(ReplaceAll(newMain, Marker, ""))))
  {
  }

  /** Text without `$` ahead of the rest is copied, and the rest substituted. */
  lemma {:induction false} SubstitutePlainPrefix(u: string, r: string, matched: string, before: string, after: string)
    requires '$' !in u
    ensures Substitute(u + r, matched, before, after) == u + Substitute(r, matched, before, after)
    decreases |u|
  {
    if u != [] {
      assert (u + r)[1..] == u[1..] + r;
      SubstitutePlainPrefix(u[1..], r, matched, before, after);
      assert u == [u[0]] + u[1..];
    } else {
      assert u + r == r;
    }
  }

  /** Both write-backs replace the first occurrence of the main content, which is found. */
  lemma MainFound(content: string)
    requires MainSpan(content).Some?
    ensures 0 <= IndexOf(content, MainOf(content)) <= MainSpan(content).value.0
  {
    var (a, b) := MainSpan(content).value;
    assert OccursAt(content, MainOf(content), a);
  }

  /**
   * Whenever the line pass changes a page and its output, markers
   * deleted, is `u`, then `$$`, then `w` (with no other `$`), the page is
   * written with a single `$` there. Writing the output as it stands
   * keeps both.
   */
  lemma DollarsCollapse(content: string, u: string, w: string)
    requires MainSpan(content).Some?
    requires NewMain(RemoveAsides(MainOf(content))) != RemoveAsides(MainOf(content))
    requires ReplaceAll(NewMain(RemoveAsides(MainOf(content))), Marker, "") == u + "$$" + w
    requires '$' !in u && '$' !in w
    ensures var m := MainOf(content);
            var i := IndexOf(content, m);
            0 <= i
            && FixedFile(content) == Some(content[..i] + u + "$" + w + content[i + |m|..])
            && FixedFileLiteral(content) == Some(content[..i] + u + "$$" + w + content[i + |m|..])
  {
    var m := MainOf(content);
    var q := u + "$$" + w;
    assert FixedFile(content) == Some(ReplaceFirst(content, m, q))
      && FixedFileLiteral(content) == Some(ReplaceFirst(content, m, EscapeDollars(q))) by {
      WrittenForms(content);
    }
    MainFound(content);
    DollarsReplaced(content, m, u, w);
  }

  /** Replacing a found `p` by `u`, `$$`, `w` writes one `$`; escaping the replacement first writes both. */
  lemma DollarsReplaced(content: string, p: string, u: string, w: string)
    requires 0 <= IndexOf(content, p)
    requires '$' !in u && '$' !in w
    ensures var i := IndexOf(content, p);
            ReplaceFirst(content, p, u + "$$" + w) == content[..i] + u + "$" + w + content[i + |p|..]
            && ReplaceFirst(content, p, EscapeDollars(u + "$$" + w)) == content[..i] + u + "$$" + w + content[i + |p|..]
  {
    var i := IndexOf(content, p);
    var before, after := content[..i], content[i + |p|..];
    DollarPairCollapses(u, w, p, before, after);
    SubstituteEscaped(u + "$$" + w, p, before, after);
    assert before + (u + "$" + w) + after == before + u + "$" + w + after;
    assert before + (u + "$$" + w) + after == before + u + "$$" + w + after;
  }

  /** `$$` between texts without `$` is substituted by one `$`. */
  lemma DollarPairCollapses(u: string, w: string, matched: string, before: string, after: string)
    requires '$' !in u && '$' !in w
    ensures Substitute(u + "$$" + w, matched, before, after) == u + "$" + w
  {
    SubstitutePlainPrefix(u, "$$" + w, matched, before, after);
    assert ("$$" + w)[2..] == w;
    SubstitutePlain(w, matched, before, after);
    assert u + "$$" + w == u + ("$$" + w);
  }

  /**
   * Writing the output as it stands puts exactly the line pass's output,
   * markers deleted, in place of the main content, whatever `$` it holds.
   */
  lemma LiteralWriteKeepsMain(content: string)
    requires MainSpan(content).Some?
    requires NewMain(RemoveAsides(MainOf(content))) != RemoveAsides(MainOf(content))
    ensures var m := MainOf(content);
            var i := IndexOf(content, m);
            0 <= i
            && FixedFileLiteral(content) ==
               Some(content[..i] + ReplaceAll(NewMain(RemoveAsides(m)), Marker, "") + content[i + |m|..])
  {
    var m := MainOf(content);
    var i := IndexOf(content, m);
    WrittenForms(content);
    MainFound(content);
    SubstituteEscaped(ReplaceAll(NewMain(RemoveAsides(m)), Marker, ""), m, content[..i], content[i + |m|..]);
  }
}
