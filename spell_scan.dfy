/**
 * The spellchecker's driver: every HTML file the directory walk reaches
 * outside the excluded directories is read, checked against the table,
 * counted, and, in fix mode, rewritten with its records repaired. The
 * exit status says whether anything was found.
 */
module SpellScan {
  import opened Options
  import opened Strings
  import opened SpellPatterns
  import opened Spellcheck
  import opened SpellFix

  /**
   * A file the directory walk meets: the directories leading to it below
   * the scanned directory, its name, and its text when it can be decoded
   * as UTF-8.
   */
  datatype WalkedFile = WalkedFile(dirs: seq<string>, name: string, text: Option<string>)

  /** A file written back in fix mode. */
  datatype Written = Written(path: string, text: string)

  /** The directories the walk does not enter. */
  const ExcludedDirs: set<string> := {"en", "node_modules", ".norwegian-spellcheck-backup"}

  predicate EndsWith(s: string, t: string)
  {
    |t| <= |s| && s[|s| - |t|..] == t
  }

  /** The file lies outside the excluded directories and is an HTML file that could be read. */
  predicate Checked(f: WalkedFile)
  {
    (forall d :: d in f.dirs ==> d !in ExcludedDirs) && EndsWith(f.name, ".html") && f.text.Some?
  }

  /** The path the records carry. */
  function PathOf(f: WalkedFile): string
  {
    Join(f.dirs + [f.name], "/")
  }

  /** The records of one checked file. */
  function FileIssues(f: WalkedFile, entries: seq<Pattern>): seq<Issue>
    requires Checked(f)
  {
    Issues(PathOf(f), f.text.value, entries)
  }

  /** The number of records over the files, as `scan_directory` adds them up. */
  function TotalIssues(files: seq<WalkedFile>, entries: seq<Pattern>): nat
    decreases |files|
  {
    if files == [] then 0
    else
      var f := files[|files| - 1];
      TotalIssues(files[..|files| - 1], entries) + (if Checked(f) then |FileIssues(f, entries)| else 0)
  }

  /** The number of checked files with at least one record. */
  function FilesWithIssues(files: seq<WalkedFile>, entries: seq<Pattern>): nat
    decreases |files|
  {
    if files == [] then 0
    else
      var f := files[|files| - 1];
      FilesWithIssues(files[..|files| - 1], entries) + (if Checked(f) && FileIssues(f, entries) != [] then 1 else 0)
  }

  /** What fix mode writes: each checked file with records, with its records repaired. */
  function Rewrites(files: seq<WalkedFile>, entries: seq<Pattern>): seq<Written>
    decreases |files|
  {
    if files == [] then []
    else
      var f := files[|files| - 1];
      Rewrites(files[..|files| - 1], entries) +
        (if Checked(f) && FileIssues(f, entries) != [] then
           IssuesAdaptable(PathOf(f), f.text.value, entries);
           [Written(PathOf(f), FixedText(f.text.value, FileIssues(f, entries)))]
         else [])
  }

  /**
   * `scan_directory` over the files in walk order: the total number of
   * records, the number of files with records, and the files written back
   * (only in fix mode).
   */
  method ScanDirectory(files: seq<WalkedFile>, entries: seq<Pattern>, fix: bool)
    returns (total: nat, withIssues: nat, written: seq<Written>)
    ensures total == TotalIssues(files, entries)
    ensures withIssues == FilesWithIssues(files, entries)
    ensures written == (if fix then Rewrites(files, entries) else [])
  {
    total, withIssues, written := 0, 0, [];
    for n := 0 to |files|
      invariant total == TotalIssues(files[..n], entries)
      invariant withIssues == FilesWithIssues(files[..n], entries)
      invariant written == (if fix then Rewrites(files[..n], entries) else [])
    {
      var f := files[n];
      assert files[..n + 1][..n] == files[..n] && files[..n + 1][n] == f;
      if (forall d :: d in f.dirs ==> d !in ExcludedDirs) && EndsWith(f.name, ".html") && f.text.Some? {
        var path, content := PathOf(f), f.text.value;
        var issues := FindIssues(path, content, entries);
        if issues != [] {
          withIssues := withIssues + 1;
          total := total + |issues|;
          if fix {
            IssuesAdaptable(path, content, entries);
            var fixedContent := FixIssues(content, issues);
            written := written + [Written(path, fixedContent)];
          }
        }
      }
    }
    assert files[..|files|] == files;
  }

  /** `main`'s exit status. */
  function ExitCode(total: nat): int
  {
    if total == 0 then 0 else 1
  }

  /** Every file with records contributes at least one, and fix mode writes exactly those files. */
  lemma {:induction false} CountsAgree(files: seq<WalkedFile>, entries: seq<Pattern>)
    ensures FilesWithIssues(files, entries) <= TotalIssues(files, entries)
    ensures |Rewrites(files, entries)| == FilesWithIssues(files, entries)
    decreases |files|
  {
    if files != [] {
      CountsAgree(files[..|files| - 1], entries);
    }
  }

  /**
   * The exit status is 0 exactly when, in every file that was checked, no
   * entry of the table matches anywhere.
   */
  lemma {:induction false} ExitCodeZeroIff(files: seq<WalkedFile>, entries: seq<Pattern>)
    ensures ExitCode(TotalIssues(files, entries)) == 0 <==>
      forall k :: 0 <= k < |files| && Checked(files[k]) ==> !SomeEntryMatches(files[k].text.value, entries)
    decreases |files|
  {
    if files != [] {
      var init, f := files[..|files| - 1], files[|files| - 1];
      ExitCodeZeroIff(init, entries);
      assert forall k :: 0 <= k < |init| ==> init[k] == files[k];
      if Checked(f) {
        IssuesEmpty(PathOf(f), f.text.value, entries);
      }
    }
  }
}
