/**
 * The `fixFile` loop shared by website/scripts/fix-encoding.js and
 * website/scripts/fix-encoding-v2.js: each (bad, good) pair of the script's
 * `fixes` array, in array order, rewrites the text with
 * `content.split(bad).join(good)`, and the file is written back only when
 * the text changed. Reading and writing the file are abstracted: the
 * method takes the text read and says whether it would be written.
 */
module SplitJoinFix {
  import opened Strings
  import opened Rewrite

  /** The loop of `fixFile`, followed by its `content !== original` test. */
  method RunFixes(fixes: seq<Rule>, content: string) returns (result: string, written: bool)
    requires WellFormed(fixes)
    ensures result == ApplyAll(fixes, content)
    ensures written <==> result != content
  {
    var text := content;
    for i := 0 to |fixes|
      invariant WellFormed(fixes[..i])
      invariant text == ApplyAll(fixes[..i], content)
    {
      var bad, good := fixes[i].bad, fixes[i].good;
      SplitJoinIsReplaceAll(text, bad, good);
      ApplyAllSnoc(fixes[..i], fixes[i], content);
      assert fixes[..i + 1] == fixes[..i] + [fixes[i]];
      text := Join(Split(text, bad), good);
    }
    assert fixes[..|fixes|] == fixes;
    result := text;
    written := result != content;
  }

}
