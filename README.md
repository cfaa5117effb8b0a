# Norwegian text repair and blog scripts of TheBackROM website, in Dafny

This project models the maintenance scripts and blog code of a
chiropractic clinic's bilingual (Norwegian and English) website. Most of
them repair text in the site's HTML pages, and the model proves what those
repairs do.

- **Placeholder repair** (`fix-encoding.py`). A broken decode leaves
  U+FFFD REPLACEMENT CHARACTER inside Norwegian words. A dictionary of
  corrupted spellings repairs them:
  - the longest keys go first;
  - each key replaces every occurrence and adds its count to a total;
  - the bare placeholder, repaired to `å`, goes last.
- **Word-pattern repair** (`norwegian-spellcheck.py`). Whole-word patterns
  find words whose æ, ø or å was written as plain a, o or ae. Each match
  becomes a record.
  - The records are spliced back into the text, from the last position to
    the first.
  - Each replacement takes the case of the text it replaces.
  - A driver scans every page and derives the exit status.
- **Ordered split/join fixers** (`fix-encoding.js`, `fix-encoding-v2.js`):
  an array of (bad, good) pairs, applied in array order.
- **Link fixer** (`fix-broken-links.py`): a table of link corrections, then
  two `href` rewrites, with a count of what was changed.
- **Metadata length rules** (`fix-meta-lengths.js`, `audit-meta-lengths.js`):
  - shortening of titles over 70 characters and of descriptions over 160;
  - the escaping of a title for a regular expression;
  - the audit's suggestions and its auto-fix verdicts.
- **Heading pass** (`fix-heading-hierarchy-v3.js`). Inside `<main>`, an
  orphan h4 (one that follows an h2 with no h3 in between) becomes an h3.
  This works in place on the page's array of lines.
- **Blog queries** (`blog-posts.js`):
  - recent posts;
  - posts by category or by diagnosis;
  - related posts;
  - the sorted list of clinical tags.
- **Infinite scroll** (`infinite-scroll.js`): the `InfiniteScrollBlog`
  object, which holds its page, loading and filter state as fields and
  changes them in its methods.

The same source member appears in two forms:

- Operations that loop in the source are methods with loop invariants. Each
  method is proved equal to a specification function, and the properties
  are proved about that function.
- Pure operations are functions.

Every script is modelled as written. Where a
script does not do what its table or comments evidently mean, a corrected
definition stands beside the as-written one, with the intended property
proved (see "## Findings").

The shared modules are:

- `Strings`: search, count, replace, split and join;
- `Chars`: Latin-1 case mapping, character classes and trim;
- `JsStrings`: the JavaScript string built-ins;
- `JsArrays`: `slice`, `filter`, `some` and `sort`;
- `Sorting`: Python's stable `sorted`;
- `DictLiteral`: a Python dictionary built from a literal with repeated
  keys;
- `Rewrite`: ordered literal rewriting;
- `WordMatch`: a matcher for the spellchecker's pattern shapes;
- `Options`: optional values.

## Model

| member | source | states |
|---|---|---|
| PlaceholderRepair.FixContent | website/scripts/fix-encoding.py:139-176 | Text without U+FFFD comes back unchanged, with count 0 and no write. Other text is repaired by the whole table, longest key first. The file is written exactly when the text changed. The count is the sum of the per-rule hit counts when the file is written, and 0 otherwise. No U+FFFD is left. |
| PlaceholderRepair.ReplacementsUniqueKeys | website/scripts/fix-encoding.py:11-137 | The dictionary holds each key once, although the literal writes three keys twice. |
| PlaceholderRepair.LowerNaerShadowsNaar | website/scripts/fix-encoding.py:94 | The later write of `n�r` wins. The entry is `nær`, not `når`, and a text that is that key alone is repaired to `nær`. |
| PlaceholderRepair.UpperNaerShadowsNaar | website/scripts/fix-encoding.py:95 | Likewise `N�r` becomes `Nær`, not `Når`. |
| PlaceholderRepair.RoedeShadowsRaade | website/scripts/fix-encoding.py:60 | `r�de`, written at line 32 as `råde` and again at line 60, keeps only `røde`. The placeholder word becomes `røde`, never `råde`. |
| PlaceholderRepair.LongestFirst | website/scripts/fix-encoding.py:155 | After sorting on negated key length, no rule's key is shorter than the key of a rule after it. |
| PlaceholderRepair.EqualLengthsInDictionaryOrder | website/scripts/fix-encoding.py:155 | Rules whose keys have equal length keep their dictionary order, because the sort is stable. |
| PlaceholderRepair.CatchAllLast | website/scripts/fix-encoding.py:136-155 | For any table of checked entries that holds the bare-placeholder rule, the sorted order ends with `� → å`: it is the only one-character key. |
| PlaceholderRepair.WholeKeyRepaired | website/scripts/fix-encoding.py:136-161 | A text that is one whole key of the table is repaired to exactly that key's value. No shorter key, and not the catch-all, breaks the key up first. |
| PlaceholderRepair.NoPlaceholderRemains | website/scripts/fix-encoding.py:157-169 | After the sorted table has run, no U+FFFD is left in any text, so the remaining-placeholder warning can never fire. |
| PlaceholderRepair.ApplyMarkers | website/scripts/fix-encoding.py:157-161 | Every hit removes at least one placeholder-like character: the characters left plus the hits counted never exceed the characters there were. |
| PlaceholderRepair.HitsIffChanged | website/scripts/fix-encoding.py:157-176 | The hit total is 0 exactly when repair leaves the text as it was. |
| Rewrite.ReplaceCounting | website/scripts/fix-encoding.py:157-161 | The loop over the rules gives the text obtained by applying the rules in order, and a count equal to the sum of each rule's occurrences in the text it met. |
| Rewrite.ApplyAllNoneOccurs | website/scripts/fix-encoding-v2.js:92-94 | When no bad string occurs in a text, every rule is the identity on it and no hit is counted. |
| Rewrite.NoHitsUnchanged | website/scripts/python/fix-broken-links.py:41-45 | A pass that counted no hit returned its input. |
| Rewrite.NoHitsNoneOccurs | website/scripts/python/fix-broken-links.py:41-45 | A pass that counted no hit met a text in which no bad string occurred. |
| Rewrite.ApplyAllRemoves | website/scripts/fix-encoding.js:48-50 | If a rule's bad string cannot be brought back by that rule's own good string or any later rule, it does not occur in the final text, whatever ran before. |
| DictLiteral.FromLiteralKeys | website/scripts/fix-encoding.py:11-137 | A dictionary built from a literal has one entry per distinct key, ordered by each key's first appearance. |
| DictLiteral.FromLiteralLookup | website/scripts/fix-encoding.py:11-137 | A key's entry holds the value of its last appearance in the literal. |
| Sorting.SortBySorted | website/scripts/python/norwegian-spellcheck.py:288 | `sorted` on a key yields its elements in ascending key order. |
| Sorting.SortByStable | website/scripts/python/norwegian-spellcheck.py:288 | Elements with equal keys keep their input order, also under `reverse=True`. |
| Sorting.SortByMembers | website/scripts/fix-encoding.py:155 | The sorted list holds exactly the elements of the input. |
| Strings.SplitJoinIsReplaceAll | website/scripts/fix-encoding.js:49 | `split(bad).join(good)` is the left-to-right replacement of every non-overlapping occurrence. |
| Strings.CountZeroIff | website/scripts/fix-encoding.py:158-159 | The occurrence count is 0 exactly when the key does not occur. |
| Strings.ReplaceRemovesPattern | website/scripts/fix-encoding.js:49 | If no occurrence of the pattern can straddle the replacement and its surroundings, none survives replacing the pattern everywhere. |
| SplitJoinFix.RunFixes | website/scripts/fix-encoding.js:44-58 | The pairs are applied in array order. The file is written exactly when the text changed. |
| EncodingFixJs.FixFile | website/scripts/fix-encoding.js:44-58 | The text is repaired by this script's array, and written exactly when it changed. |
| EncodingFixJs.FixesEntries | website/scripts/fix-encoding.js:10-42 | Every bad string of the array holds å or ø. Every character of every good string is at most `Å` (ASCII letters, `-` and `(` among them), so no good string holds å or ø. |
| EncodingFixJs.CleanTextUntouched | website/scripts/fix-encoding.js:52-57 | Text without å and ø is returned as it is. |
| EncodingFixJs.HubArticleRepaired | website/scripts/fix-encoding.js:17-18 | `hub-årticle`, which runs before its substring `årticle`, repairs its whole span to `hub-article`. |
| EncodingFixJs.DashCardRepaired | website/scripts/fix-encoding.js:22-24 | `-cård` runs before `cård` and repairs to `-card`. |
| EncodingFixJs.NoArticleLeft | website/scripts/fix-encoding.js:18 | No `årticle` is left in any text the script repairs. |
| EncodingFixJs.NoCapitalCardLeft | website/scripts/fix-encoding.js:23 | No `Cård` is left in any text the script repairs. |
| EncodingFixJs.NoCardLeft | website/scripts/fix-encoding.js:24 | No `cård` is left in any text the script repairs. |
| EncodingFixJs.ScrollMarginRuleIsDead | website/scripts/fix-encoding.js:35-37 | The `scroll-mårgin` pair never matches: the pairs just before it leave no `scroll-mårgin` in any text. |
| EncodingFixJs.MarginGone | website/scripts/fix-encoding.js:34-36 | After the pairs of lines 34 to 36, no `mårgin` is left. |
| EncodingFixJsV2.FixFile | website/scripts/fix-encoding-v2.js:88-101 | The text is repaired by this script's array in array order, and written exactly when it changed. |
| EncodingFixJsV2.FixesCorrupted | website/scripts/fix-encoding-v2.js:10-70 | Every bad string is non-empty and holds one of the letters the script repairs, or is the one misspelling it lists. |
| EncodingFixJsV2.CleanTextUntouched | website/scripts/fix-encoding-v2.js:96-100 | Text without å, ø and æ, and without the misspelling, is returned unchanged and not written. |
| LinkFix.HrefPass | website/scripts/python/fix-broken-links.py:49-53 | An `href` pass gives the rewritten text and the number of matches. With no match, the text is unchanged. |
| LinkFix.FixLinks | website/scripts/python/fix-broken-links.py:35-63 | The literal table, then the two `href` rewrites, give the corrected text. The count adds up every key's occurrences and every pattern match. A count of 0 means the text is unchanged. |
| LinkFix.NothingToFix | website/scripts/python/fix-broken-links.py:36-63 | The count is 0 exactly when no key occurs and neither pattern matches anywhere, and then the text is returned unchanged. |
| LinkFix.MatchesZeroIff | website/scripts/python/fix-broken-links.py:49-51 | A pattern has no matches exactly when it matches at no position. |
| LinkFix.ScanFile | website/scripts/python/fix-broken-links.py:94-107 | A page is written only in fix mode and only when something was counted, and then with the corrected text. |
| LinkFix.CleanFileNotWritten | website/scripts/python/fix-broken-links.py:94-107 | A page with no broken key and no quote has nothing counted, so it is not rewritten. |
| LinkFix.LinkCorrectionsShadowed | website/scripts/python/fix-broken-links.py:14-30 | Some key of the table contains an earlier key, so that earlier key can change the text before the longer key is tried. |
| LinkFix.IntendedUnshadowed | website/scripts/python/fix-broken-links.py:14-30 | In the reordered table, no key contains an earlier key. |
| LinkFix.AcuteLumbagoDoubled | website/scripts/python/fix-broken-links.py:19-20 | `acute-lumbago.html` is turned into `acute-acute-back-pain.html`. |
| LinkFix.IntendedRepairsAcute | website/scripts/python/fix-broken-links.py:19-20 | With `acute-lumbago.html` tried before `lumbago.html`, the link becomes `acute-back-pain.html`. |
| Spellcheck.FindIssues | website/scripts/python/norwegian-spellcheck.py:261-283 | The nested loops produce, pattern by pattern and then match by match, one record per match. |
| Spellcheck.IssueRecord | website/scripts/python/norwegian-spellcheck.py:265-282 | Every record names its file and a non-empty span inside the text. `found` is the text of that span, which is a match of some table entry whose replacement and description the record carries. |
| Spellcheck.IssueReport | website/scripts/python/norwegian-spellcheck.py:267-271 | The line number is one more than the number of newlines before the match. The context is the window from 30 characters before to 30 after, clipped to the text, with newlines turned into spaces. |
| Spellcheck.ContextOfWindow | website/scripts/python/norwegian-spellcheck.py:269-271 | The context of a window has the window's length, holds no newline, and agrees with the text everywhere else. |
| Spellcheck.IssueOfMatch | website/scripts/python/norwegian-spellcheck.py:264-282 | Every match of every entry has its record among the issues. |
| Spellcheck.IssuesEmpty | website/scripts/python/norwegian-spellcheck.py:261-283 | There are no issues exactly when no entry matches anywhere in the text. |
| SpellPatterns.AllIgnoreCase | website/scripts/python/norwegian-spellcheck.py:265 | For every pattern shape of the table, the case test picks IGNORECASE. |
| SpellPatterns.VesTibulaerNeverMatches | website/scripts/python/norwegian-spellcheck.py:71 | The pattern with a word boundary between `ves` and `tibulaer` matches nowhere. |
| WordMatch.MatchFromIff | website/scripts/python/norwegian-spellcheck.py:265 | For delimited patterns, the greedy matcher succeeds at a position exactly when the pattern can match a span starting there. |
| WordMatch.MatchesOfSound | website/scripts/python/norwegian-spellcheck.py:265 | Every span the scan reports is a non-empty match of the pattern inside the text. |
| WordMatch.MatchesOfComplete | website/scripts/python/norwegian-spellcheck.py:265 | Every position where the pattern can match is inside some reported span. |
| WordMatch.LeftmostReported | website/scripts/python/norwegian-spellcheck.py:265 | The leftmost match of the pattern is reported. |
| WordMatch.MatchesOfEmpty | website/scripts/python/norwegian-spellcheck.py:265 | The scan reports nothing exactly when the pattern matches nowhere. |
| SpellFix.FixIssues | website/scripts/python/norwegian-spellcheck.py:285-303 | The loop over the records, taken by descending start, splices each case-adapted replacement into the text. |
| SpellFix.AdaptFollowsCase | website/scripts/python/norwegian-spellcheck.py:296-299 | All-upper found text gives a replacement with no lower-case letter. A capitalised found text gives a replacement with an upper first letter and the rest unchanged. Any other found text gives the replacement as it is. |
| SpellFix.AdaptOnlyCase | website/scripts/python/norwegian-spellcheck.py:296-299 | Case adaptation keeps the replacement's length and changes only letter case, for letters whose upper case is one letter. |
| SpellFix.Splice | website/scripts/python/norwegian-spellcheck.py:301 | A splice keeps the text before the span, puts in the replacement, and then keeps the text after the span. |
| SpellFix.FixedTextStitches | website/scripts/python/norwegian-spellcheck.py:288-301 | For records with distinct, non-overlapping spans, the repaired text is the original with each span replaced by its own adapted replacement. All text between spans is kept. |
| SpellFix.DescUnique | website/scripts/python/norwegian-spellcheck.py:288 | Two orderings of the same records by strictly descending start are the same list, so the splice order is determined by the records. |
| SpellFix.KeepFirstDisjoint | website/scripts/python/norwegian-spellcheck.py:288-301 | The corrected filter keeps distinct, non-overlapping records from the list. Every record it drops overlaps one it keeps. |
| SpellFix.FixedKeepFirstStitches | website/scripts/python/norwegian-spellcheck.py:288-301 | Once overlapping records are dropped, the repaired text replaces each kept span exactly and keeps the rest. |
| SpellFindings.SvaertReportedTwice | website/scripts/python/norwegian-spellcheck.py:104-105 | In `svaert.`, both `\bSvaert\b` and `\bsvaert\b` report the same span, as two different records that overlap. |
| SpellFindings.SvaertLosesFullStop | website/scripts/python/norwegian-spellcheck.py:285-303 | Splicing both records into `svaert.` gives `svært`: the full stop is lost. |
| SpellFindings.SvaertKeepFirst | website/scripts/python/norwegian-spellcheck.py:285-303 | With overlapping records dropped, the full stop of `svaert.` is kept. The capital of the result, `Svært.`, comes from the case-flag defect, which this correction leaves in place. |
| SpellFindings.SvaertUpperNowhere | website/scripts/python/norwegian-spellcheck.py:104 | Matched with case, `\bSvaert\b` matches no span of `svaert.` at any position. |
| SpellFindings.SvaertBothCorrected | website/scripts/python/norwegian-spellcheck.py:285-303 | With both corrections, only the lower-case rule reports `svaert`, and the repair gives `svært.`: its case and its full stop are kept. |
| SpellFindings.YearsLosesNumber | website/scripts/python/norwegian-spellcheck.py:211 | The years rule turns `5 ar` into the literal `\1 år`: the number is lost. |
| SpellFindings.YearsKeepsNumber | website/scripts/python/norwegian-spellcheck.py:211 | With the group reference expanded, `5 ar` becomes `5 år`. |
| SpellFindings.ExpandGroupKeepsNumber | website/scripts/python/norwegian-spellcheck.py:211-213 | Expanding `\1` in front of a replacement puts back the digits the match began with. |
| SpellFindings.SvaertUpperIgnoresCase | website/scripts/python/norwegian-spellcheck.py:265 | The capitalised pattern `\bSvaert\b` gets IGNORECASE, matches lower-case `svaert`, and rewrites it to `Svært.`. |
| SpellFindings.IntendedFlagSeparatesCase | website/scripts/python/norwegian-spellcheck.py:265 | Testing the first letter of the word instead makes `\bSvaert\b` case-sensitive: it no longer matches `svaert.`, while `\bsvaert\b` still does. |
| SpellScan.ScanDirectory | website/scripts/python/norwegian-spellcheck.py:305-375 | The loop gives the total of records over the pages read and the number of pages with records, together with exactly the pages written in fix mode (none otherwise). |
| SpellScan.CountsAgree | website/scripts/python/norwegian-spellcheck.py:336-361 | Pages with records never outnumber the records. In fix mode exactly those pages are written. |
| SpellScan.ExitCodeZeroIff | website/scripts/python/norwegian-spellcheck.py:377-387 | The exit status is 0 exactly when no page that was read has a match of any entry. |
| MetaShared.FirstSuffix | website/scripts/fix-meta-lengths.js:66-72 | The chosen suffix is the first in list order that the title ends with, ignoring case. None before it matches. |
| MetaShared.Stripped | website/scripts/fix-meta-lengths.js:66-72 | At most one suffix is removed, that first matching one. Without a match the title is kept. |
| MetaShared.StrippedRemovesSuffix | website/scripts/audit-meta-lengths.js:71-77 | What is cut off is the matched suffix, up to case. |
| MetaShared.StripFirstSuffix | website/scripts/audit-meta-lengths.js:71-77 | The loop with `break` computes that single strip. |
| MetaFix.ShortenTitle | website/scripts/fix-meta-lengths.js:45-95 | The two loops with `break` compute the shortened title, or null. |
| MetaFix.FirstDescriptor | website/scripts/fix-meta-lengths.js:86-91 | The descriptor removed is the first in list order that occurs, ignoring case. |
| MetaFix.RemoveDescriptor | website/scripts/fix-meta-lengths.js:78-88 | A descriptor pattern deletes from its first occurrence, ignoring case, to the end of that line. With no occurrence the text is kept. |
| MetaFix.ShortTitleDeletes | website/scripts/fix-meta-lengths.js:66-94 | A non-null result has at most 70 characters. It is the title with at most two pieces taken out. |
| MetaFix.ShortTitleNullOnlyWhenLong | website/scripts/fix-meta-lengths.js:94 | Null is returned only for a title over 70 characters. |
| MetaFix.AccumulateSentences | website/scripts/fix-meta-lengths.js:106-115 | The loop keeps the longest run of leading sentences that fits in 157 characters. |
| MetaFix.FittingFits | website/scripts/fix-meta-lengths.js:109-115 | The sentences kept fit in the room, and one more would not. |
| MetaFix.SentencesContiguous | website/scripts/fix-meta-lengths.js:106 | The sentences found lie next to each other in the description, from the first non-terminator onwards. |
| MetaFix.ShortenDescription | website/scripts/fix-meta-lengths.js:99-129 | The straight-line code computes the description shortening. |
| MetaFix.ShortDescriptionBound | website/scripts/fix-meta-lengths.js:100-128 | The result never exceeds 160 characters. A description of at most 160 characters is returned as it is. |
| MetaFix.ShortDescriptionCuts | website/scripts/fix-meta-lengths.js:103-128 | A long description becomes one of three things. The first is the trimmed sentence run, which ends at a terminator and reaches at least 100 characters. The second is the trimmed text before the last space at index 101 to 155, plus `...`. The third is the trimmed hard cut at 157, plus `...`, used only when there is no such space. |
| MetaFix.UnescapeEscape | website/scripts/fix-meta-lengths.js:209-211 | Removing the backslashes `escapeRegex` added gives back the input, so no character is lost or changed. |
| MetaFix.EscapeRegexPlain | website/scripts/fix-meta-lengths.js:209-211 | Text without metacharacters is left as it is. Each metacharacter adds exactly one character. |
| MetaAudit.SeparatorCut | website/scripts/audit-meta-lengths.js:80-88 | The title is cut at the first pipe separator when that lies at an index from 31 to 64. Otherwise it is cut at the first dash separator under the same bound. Any cut leaves a prefix ending just before the separator. |
| MetaAudit.SuggestShorterTitle | website/scripts/audit-meta-lengths.js:57-91 | The suffix loop, then the separator cut, compute the suggested title. |
| MetaAudit.SuggestedTitleShape | website/scripts/audit-meta-lengths.js:90 | The suggestion has at most 70 characters. It is a prefix of the title, or, for a long title, its first 67 characters followed by `...`. |
| MetaAudit.LongTitleAlwaysFixable | website/scripts/audit-meta-lengths.js:125-134 | A title over 70 characters is always reported as auto-fixable. |
| MetaAudit.DescriptionCutoff | website/scripts/audit-meta-lengths.js:98-106 | The cut comes after the last `. ` if that lies past index 100, else at the last `, ` past index 120, else at 160. |
| MetaAudit.SuggestedDescriptionShape | website/scripts/audit-meta-lengths.js:93-109 | The suggestion is a contiguous piece of the description of at most 160 characters. A short description is kept as it is. A cut after a full stop ends with that full stop. |
| MetaAudit.DescriptionFixableIff | website/scripts/audit-meta-lengths.js:149-158 | A description is auto-fixable exactly when the suggestion has at least 70 characters, since a suggestion never exceeds 160. |
| HeadingFix.ConvertOrphans | website/scripts/fix-heading-hierarchy-v3.js:54-76 | The loop rewrites the array of lines in place. Its count is the number of conversions the line scan makes. |
| HeadingFix.ScanToMeaning | website/scripts/fix-heading-hierarchy-v3.js:58-76 | After the scan, a line is converted exactly when it is an orphan h4: the first h4 after an h2 with no h3 between them. Every other line is unchanged, and the count is the number of orphans. |
| HeadingFix.OneOrphanPerSection | website/scripts/fix-heading-hierarchy-v3.js:70-75 | Between two orphans there is always a new h2, so a section converts at most one h4. |
| HeadingFix.OpensIff | website/scripts/fix-heading-hierarchy-v3.js:61-70 | The tag test holds exactly when the line has `<hN` followed by white space or `>`, ignoring case. |
| HeadingFix.MainSpan | website/scripts/fix-heading-hierarchy-v3.js:42-43 | The main content runs from the end of the first `<main…>` tag to the first `</main>` after it. There is none when the page has no `<main`. |
| HeadingFix.FixFile | website/scripts/fix-heading-hierarchy-v3.js:36-90 | The page rewritten, or nothing, and the conversion count. The write-back is `replace` with a string pattern, whose `$` forms are expanded in the new main content. |
| HeadingFix.NoMainNotWritten | website/scripts/fix-heading-hierarchy-v3.js:42-43 | A page without `<main` is not written and counts nothing. |
| HeadingFix.NoOrphanNotWritten | website/scripts/fix-heading-hierarchy-v3.js:80-89 | A page whose main content has no orphan h4 is not written and counts nothing. |
| HeadingFix.RestoreUndoesRemove | website/scripts/fix-heading-hierarchy-v3.js:49 | Putting each aside block back where its marker stands restores the main content exactly. |
| JsStrings.DollarForms | website/scripts/fix-heading-hierarchy-v3.js:82 | In a replacement for a string pattern, `$$` gives `$`, `$&` the matched text, ``$` `` the text before it and `$'` the text after it. `$1`, `$<` and a final `$` stay as written. |
| JsStrings.SubstitutePlain | website/scripts/fix-heading-hierarchy-v3.js:82 | A replacement without `$` is inserted as it stands. |
| JsStrings.SubstituteEscaped | website/scripts/fix-heading-hierarchy-v3.js:82 | A text with every `$` doubled is inserted as the text itself, whatever was matched. |
| HeadingFindings.DollarsCollapse | website/scripts/fix-heading-hierarchy-v3.js:82 | Take a changed page whose new main content holds `$$` and no other `$`. It is written with a single `$` there, while writing the content as it stands keeps both. |
| HeadingFindings.LiteralWriteKeepsMain | website/scripts/fix-heading-hierarchy-v3.js:78-82 | Writing the new main content with its `$` escaped puts exactly that content, markers deleted, in place of the first occurrence of the old main content. |
| HeadingFindings.AsideDropped | website/scripts/fix-heading-hierarchy-v3.js:49-82 | Take a changed page whose main content held one aside block. It is written with the marker deleted, so the block is gone. Restoring the marker instead would have put the block back in its place. |
| BlogPosts.RecentPosts | website/blogg/js/blog-posts.js:954-956 | The first `limit` posts in order, or all of them. A negative limit drops that many posts from the end. |
| BlogPosts.PostsByTag | website/blogg/js/blog-posts.js:959-961 | Exactly the posts whose categories hold the tag, each as often as in the list, in list order. |
| BlogPosts.RelatedPosts | website/blogg/js/blog-posts.js:964-983 | No result has the current post's id, and there are at most `limit` results. Each shares a category or a clinical tag with the current post, or has a category among its related conditions. The results are the first related posts, in list order. |
| BlogPosts.RelatedShares | website/blogg/js/blog-posts.js:969-979 | The three `some` tests hold exactly when the posts share a category, a clinical tag, or a category among the related conditions. |
| BlogPosts.PostsByDiagnosis | website/blogg/js/blog-posts.js:986-991 | Exactly the posts with the diagnosis among their clinical tags or categories, in list order. |
| BlogPosts.ClinicalTagSetIff | website/blogg/js/blog-posts.js:995-1000 | A tag is collected exactly when some post lists it. |
| BlogPosts.AllClinicalTags | website/blogg/js/blog-posts.js:994-1002 | The result is sorted and free of duplicates. It holds exactly the tags some post lists. |
| JsArrays.Slice | website/blogg/js/blog-posts.js:955 | `slice` returns a contiguous piece of the array, starting at the clamped start index. |
| JsArrays.SliceWindow | website/blogg/js/infinite-scroll.js:113-115 | For indices that are not negative, the window from start to end, cut at the array's end. It is empty when start is past the end. |
| JsArrays.FilterKeepsOrder | website/blogg/js/blog-posts.js:960 | `filter` keeps the accepted elements in their order, each as often as it occurs, and drops every other element. |
| JsArrays.AnyInIff | website/blogg/js/blog-posts.js:969 | `some` over `includes` holds exactly when the arrays share an element. |
| JsArrays.SortedFromSet | website/blogg/js/blog-posts.js:1001 | `Array.from(set).sort()` lists the set's strings once each, in ascending order. |
| JsArrays.AscendingUnique | website/blogg/js/blog-posts.js:1001 | Two ascending, duplicate-free lists with the same strings are equal, so the sorted tag list is determined by the set of tags. |
| JsArrays.PrecedesTransitive | website/blogg/js/blog-posts.js:1001 | The default string order is transitive. |
| JsArrays.PrecedesTotal | website/blogg/js/blog-posts.js:1001 | Of two different strings, one comes first. |
| InfiniteScroll.MatchesTagIff | website/blogg/js/infinite-scroll.js:224-242 | A post matches a filter key exactly when one of its categories, clinical tags or related conditions is among the key's variations. |
| InfiniteScroll.UnmappedTagMatchesItself | website/blogg/js/infinite-scroll.js:226 | A key with no mapping matches exactly the posts that carry the key itself. |
| InfiniteScroll.NorwegianKeyInOwnGroup | website/blogg/js/infinite-scroll.js:15-43 | Each Norwegian filter key is mapped to a group that contains the key. |
| InfiniteScroll.NorwegianKeyKeepsCategory | website/blogg/js/infinite-scroll.js:224-242 | Filtering on a Norwegian key keeps every post in the category of that name. |
| InfiniteScroll.NextPage | website/blogg/js/infinite-scroll.js:113-118 | The next page is empty exactly when the earlier pages took every post. Appended to them, it gives the posts up to the page's end, or all of them. |
| InfiniteScroll.InfiniteScrollBlog.constructor | website/blogg/js/infinite-scroll.js:5-43 | Page 1, not loading, more posts expected, filter `alle`, no posts, the fixed key mapping. |
| InfiniteScroll.InfiniteScrollBlog.Init | website/blogg/js/infinite-scroll.js:51-66 | All posts, unfiltered, from the first page, with a load started. |
| InfiniteScroll.InfiniteScrollBlog.LoadInitialPosts | website/blogg/js/infinite-scroll.js:98-103 | The container is cleared, the page goes back to 1, more posts are expected, and a load starts. The posts and the filter stay as they were. |
| InfiniteScroll.InfiniteScrollBlog.LoadPosts | website/blogg/js/infinite-scroll.js:105-108 | A load starts exactly when none is under way and more posts remain. Otherwise nothing changes. |
| InfiniteScroll.InfiniteScrollBlog.FinishLoad | website/blogg/js/infinite-scroll.js:112-134 | The container gains the posts of the current page. An empty page means no posts remain. Otherwise the page number moves on, and no posts remain once the page reached the end of the list. The load is over. The container always shows the filtered posts in order, none skipped and none twice. |
| InfiniteScroll.InfiniteScrollBlog.PostMatchesTag | website/blogg/js/infinite-scroll.js:224-242 | True exactly when some category, clinical tag or related condition of the post is a variation of the key. |
| InfiniteScroll.InfiniteScrollBlog.HandleFilterChange | website/blogg/js/infinite-scroll.js:244-254 | `alle` or `all` restore every post. Any other key keeps exactly the matching posts, in order. Either way the view starts again from page 1. |
| Chars.UpperOnlyCase | website/scripts/python/norwegian-spellcheck.py:297 | `upper` keeps a text's length and changes only letter case, for letters whose upper case is one letter. |
| Chars.TrimDropsOnlySpace | website/scripts/fix-meta-lengths.js:118 | `trim` removes only white space, and only from the two ends. |

## Left out

- Directory walks, file reads and writes, backups, exclusion lists, printed
  reports and summary statistics are all file and terminal I/O. Each script
  is modelled on the text of one page: the model takes the text read and
  says what would be written. The spellchecker's driver is the exception:
  it takes the walked files as a list, with a missing text where reading
  failed.
- A read error in `fix_file` of `fix-encoding.py` and in `scan_and_fix` of
  `fix-broken-links.py` can only happen while reading, so it is not part of
  the per-page model.
- The debug report of the placeholders that remain, in `fix-encoding.py`,
  only prints. It is proved never to trigger.
- Regular expressions are not modelled by a general engine. Each one is
  replaced by a matcher for its shape:
  - the spellchecker's patterns, by `WordMatch`;
  - the two `href` patterns of the link fixer, by a quote-bounded matcher;
  - the title descriptor patterns, by their literal head up to the end of
    the line;
  - the `<main>` and `<aside>` patterns of the heading pass, by
    case-insensitive searches.
- `fixFile` and `findHtmlFiles` of `fix-meta-lengths.js` are not modelled:
  - the regular expressions built around escaped titles;
  - the `$1`/`$2` replacement patterns;
  - the `og:` tag sync.

  Only the shortening rules and `escapeRegex` are modelled.
- `analyzeFile` of `audit-meta-lengths.js` is modelled only through its two
  auto-fix verdicts. These are not modelled:
  - `getMeta` and the canonical-link test;
  - the too-short reports;
  - the report file.
- Case mapping (`upper`, `isupper`, `toLowerCase`, the `i` and IGNORECASE
  flags) is exact only for U+0000 to U+00FF. Characters above are treated as
  uncased, because the pages' Norwegian letters lie in that range.
- Chars.IsWordChar, Chars.IsDigit: `\w`, and so `\b`, know only the word
  characters of U+0000 to U+00FF, and `\d` only the ASCII digits. Python's
  `re` is Unicode-aware on text: a letter such as `ŋ` is a word character
  there, and a digit such as `٣` matches `\d`. The pages' text lies in the
  Latin-1 range.
- Lengths and indices count characters (Unicode scalar values), while
  JavaScript counts UTF-16 code units. The two agree for text in the Basic
  Multilingual Plane.
- JsArrays.SortedFromSet: compares strings by Unicode scalar value, while
  JavaScript's default `sort` compares UTF-16 code units. The orders agree
  inside the Basic Multilingual Plane.
- The blog's post list `BLOG_POSTS` is a parameter, and a post holds only
  the fields the queries read. A missing `clinicalTags` or
  `relatedConditions` is an empty list, which gives the same result as the
  source's guards.
- Looking up a filter key that JavaScript objects inherit (such as
  `constructor`) reaches a prototype member in the source. The model's
  mapping holds only the listed keys.
- Not modelled in `infinite-scroll.js`:
  - DOM rendering (`renderPosts`, the loading indicator, the end message);
  - the scroll and filter listeners;
  - the 500 ms delay;
  - the `init` guard on a missing container, and the retry while
    `BLOG_POSTS` is undefined.

  The constructor's call to `init` is the separate method `Init`, and the
  delayed callback of `loadPosts` is the separate method `FinishLoad`.
- InfiniteScroll.InfiniteScrollBlog.FinishLoad: requires a load under way,
  because the source schedules that callback only after `loadPosts` has
  started a load.
- HeadingFix.FixFile: the converse of `NoOrphanNotWritten` is not proved.
  By the source's logic, a page with an orphan is always written.
- SpellScan.ScanDirectory: the number of pages with issues is returned for
  a report only. The printed first ten records per page are not modelled.
- The Findings below model each script as written. The corrected
  definitions stand beside them with their intended property proved, and
  nothing else in the model depends on them.

## Findings

| source | as written | input that shows it | evidently intended | confidence | as-written member | corrected member |
|---|---|---|---|---|---|---|
| website/scripts/python/norwegian-spellcheck.py:104-105 | `\bSvaert\b` and `\bsvaert\b` both match lower-case `svaert` (every pattern ignores case), giving two records for one span. `fix_issues` splices both, and the second splice works on text already changed by the first. | the page text `svaert.` | each span repaired once, keeping the text's case and the rest of the text: `svært.` | not executed | SpellFindings.SvaertLosesFullStop | SpellFindings.SvaertBothCorrected |
| website/scripts/python/norwegian-spellcheck.py:211-213 | the replacements `\1 år`, `\1-år` and `\1-års` are spliced in literally. The group reference is never expanded. | the page text `5 ar` | `5 år`, keeping the number | not executed | SpellFindings.YearsLosesNumber | SpellFindings.YearsKeepsNumber |
| website/scripts/python/norwegian-spellcheck.py:265 | the case test reads the pattern's second character, which is the `b` of `\b` for every word pattern, so every pattern ignores case | `\bSvaert\b` against `svaert.` | a pattern whose word is capitalised matches only capitalised text | not executed | SpellFindings.SvaertUpperIgnoresCase | SpellFindings.IntendedFlagSeparatesCase |
| website/scripts/python/fix-broken-links.py:19-20 | the key `lumbago.html` is tried before `acute-lumbago.html`, which contains it | the link `acute-lumbago.html` becomes `acute-acute-back-pain.html` | `acute-back-pain.html` | not executed | LinkFix.AcuteLumbagoDoubled | LinkFix.IntendedRepairsAcute |
| website/scripts/fix-heading-hierarchy-v3.js:49-82 | the aside blocks are replaced by a marker for the scan, and on write the marker is replaced by nothing | a main element holding an aside block, an h2 line and then an h4 line | the aside blocks put back where their markers stand | not executed | HeadingFindings.AsideDropped | HeadingFix.RestoreUndoesRemove |
| website/scripts/fix-heading-hierarchy-v3.js:82 | the new main content is passed to `replace` as replacement text, so `$$`, `$&`, ``$` `` and `$'` in it are expanded | a changed page whose main content holds `<p>$$</p>` | the new main content written as it stands: `<p>$$</p>` | not executed | HeadingFindings.DollarsCollapse | HeadingFindings.LiteralWriteKeepsMain |
