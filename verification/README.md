# Package diff: a Dafny model of its core

The system is a web service that compares two published versions of a
package, either from npm or from the WordPress plugin directory. It
downloads both archives and unpacks them into maps from path to file. It
filters out vendored directories, lock files, binaries and minified
bundles. It then computes a unified diff file by file: hunks with three
lines of context, line numbers on both sides, and word-level spans on
paired deleted and added lines. It also counts files, insertions and
deletions. The browser side lays the changed paths out as a sorted tree
with a status on every directory and highlights code. A server hook
limits each client to 30 requests a minute.

This project models that core in Dafny and proves properties of it:

- `Extractor`: tar and zip extraction.
- `Filters`: path filters, binary sniffing and language detection.
- `LineDiffs`, `Hunks`, `WordAnnotate`, `Engine`: the diff engine.
- `Tree`: the file tree.
- `Versions`: version comparison and range parsing.
- `Prism`: language lookup and HTML escaping.
- `RateLimit`: the rate limiter.
- `Strings`, `Numbers`, `Types`, `Records`: shared JavaScript string and
  arithmetic behaviour, the data records, and property lookup on object
  literals.

The source's loops are methods with loop invariants, proved against
specification functions: `extractTar`, `extractZip`, `isBinaryContent`,
`computeHunks`, `finishHunk`, `computeLineDiff`, `addWordDiffToHunks`,
`computeDiff`, `compareVersions`, the tree builder and the rate limiter's
sweep. Objects whose fields the source updates in place are classes:

- `LineDiffs.LineTable`: the line table of `computeLineDiff`.
- `Tree.NodeMap`: one level of the tree builder.
- `RateLimit.RateLimiter`: the hook's client map.

Pure code is functions and lemmas.

Code outside the model becomes a parameter, and the properties proved hold
for every value of it:

- diff-match-patch's `diff_main` (`DiffMain`).
- The word differ (`WordDiffer`).
- `TextDecoder` (`decode`).
- `gunzipSync` and `unzipSync`.
- `localeCompare` (`lt`).
- Prism's grammars and tokenizer.
- The clock and the request headers.

Where a result depends on `diff_main` returning a correct edit script,
the contract says so through `LineDiffs.Reconstructs`.

Four consequences of the code are worth stating:

- Content ending in a newline, such as `"l1\nl2\n"`, is split on `'\n'`
  into three lines, the last one empty. A new file with that content
  therefore has a hunk with `newCount` 3 (`Engine.AddedFileHunk`,
  `Engine.CountLines`).
- A trailing-newline difference does not make a modified file vanish. The
  split keeps the empty last line, so the texts differ line by line.
  `Engine.ModifiedNonEmpty` proves that a correct differ yields at least
  one hunk. Zero hunks arise only when one side is `null` and the other
  `""`, or from an incorrect edit script.
- Tar entry names lose a literal `package/` and then one more leading
  component. In an npm tarball, `package/lib/a.js` and `package/src/a.js`
  both become `a.js`, and the later entry replaces the earlier one
  (`Extractor.NormalizeNpmDropsDirectory`).
- The file tree builder keeps only the first level of the tree
  (`Tree.TopLevelChildren`). See "## Findings".

## Model

| member | source | states |
|---|---|---|
| Engine.CountLines | src/lib/server/diff/engine.ts:362-365 | none for missing or empty content; otherwise one more than the number of newlines |
| Engine.CountChanges | src/lib/server/diff/engine.ts:60-65 | the loop's totals are the number of add lines and of delete lines over all hunks |
| Engine.HeaderCountsChanges | src/lib/server/diff/engine.ts:326-329 | adds are the lines not counted on the old side; deletes are the lines not counted on the new side |
| Engine.CreateAddedFile | src/lib/server/diff/engine.ts:81-119 | keeps path, Added status, binary and minified flags; no hunk exactly when the file is binary or has no content |
| Engine.CreateDeletedFile | src/lib/server/diff/engine.ts:121-159 | the same for Deleted |
| Engine.AddedFileHunk | src/lib/server/diff/engine.ts:95-117 | one hunk starting at old line 0 and new line 1; all its lines are adds; joined with newlines they give back the content; counts match the lines; lines are numbered consecutively |
| Engine.DeletedFileHunk | src/lib/server/diff/engine.ts:135-157 | the same for a deleted file on the old side, starting at old line 1 and new line 0 |
| Engine.AddedFileInsertions | src/lib/server/diff/engine.ts:37 | the insertions counted for an added text file equal the add lines of its hunk |
| Engine.DeletedFileDeletions | src/lib/server/diff/engine.ts:42 | the deletions counted for a deleted text file equal the delete lines of its hunk |
| Engine.EmptyAddedFile | src/lib/server/diff/engine.ts:37 | an added empty file counts 0 insertions yet shows one added empty line |
| Engine.ComputeHunks | src/lib/server/diff/engine.ts:185-256 | the hunks are the line diff that `computeLineDiff` makes of the two texts, grouped by `Hunks.Layout`, then word-annotated; with a correct differ the line diff lists exactly the old and the new lines |
| Engine.AnnotationKeepsWellFormed | src/lib/server/diff/engine.ts:253 | the word annotation keeps a hunk well formed |
| Engine.DiffHunksWellFormed | src/lib/server/diff/engine.ts:185-256 | every hunk is well formed: it has a change, its counts match its lines, its lines are numbered from its starts |
| Engine.DiffHunksShowTexts | src/lib/server/diff/engine.ts:185-256 | with a correct differ, every line number in a hunk points at a line of that side with the same content |
| Engine.DiffHunksEmpty | src/lib/server/diff/engine.ts:248-251 | there are no hunks exactly when the line diff has no change; with a correct differ, different texts give at least one hunk |
| Engine.CreateModifiedFile | src/lib/server/diff/engine.ts:161-183 | missing content reads as ""; keeps path and Modified status; minified if either side is; the hunks are those `computeHunks` makes of the two texts' lines, from the line diff `computeLineDiff` makes of them |
| Engine.ModifiedNonEmpty | src/lib/server/diff/engine.ts:55-57 | with a correct differ, different contents give a non-empty hunk list |
| Engine.ModifiedShowsTexts | src/lib/server/diff/engine.ts:161-183 | every line number of a modified file's hunks points at the same line of the recorded old or new content |
| Engine.ModifiedWellFormed | src/lib/server/diff/engine.ts:161-183 | every hunk of a modified file is well formed |
| Engine.DiffPath | src/lib/server/diff/engine.ts:30-68 | one path: an added, deleted, binary or modified entry with its counted insertions and deletions, or the path is skipped with nothing counted |
| Engine.VisitPath | src/lib/server/diff/engine.ts:29-69 | one loop step keeps the invariant: entries in path order, each correct for its path, every visited path listed or skipped, totals matching the entries |
| Engine.ProgressDone | src/lib/server/diff/engine.ts:27-29 | after the loop the listed paths are sorted and every path of either tree is listed or skipped |
| Engine.ComputeDiff | src/lib/server/diff/engine.ts:16-79 | header fields copied; one entry per listed path, in sorted order; each entry is the right kind for its path; unlisted paths are skipped; file count and line totals match the entries |
| Engine.TotalsSnoc | src/lib/server/diff/engine.ts:36-63 | adding one entry adds its insertions and deletions to the totals |
| LineDiffs.Decode | src/lib/server/diff/engine.ts:298-301 | each token decodes to its line in the table, or "" outside it |
| LineDiffs.ExpandEdit | src/lib/server/diff/engine.ts:295-302 | one edit gives one line per token, with the edit's kind |
| LineDiffs.ExpandProjects | src/lib/server/diff/engine.ts:293-305 | the old lines of the result are the decoded old side of the script; the new lines are the decoded new side |
| LineDiffs.DecodeAppend | src/lib/server/diff/engine.ts:298-301 | decoding distributes over concatenation |
| LineDiffs.LineTable.constructor | src/lib/server/diff/engine.ts:267-268 | an empty line array and an empty hash |
| LineDiffs.LineTable.LinesToChars | src/lib/server/diff/engine.ts:270-286 | the array only grows; every token indexes it; the tokens decode back to the text's lines; the hash gains exactly the text's lines |
| LineDiffs.LineTable.TokensDistinct | src/lib/server/diff/engine.ts:275-281 | two tokens name the same line exactly when they are equal |
| LineDiffs.ComputeLineDiff | src/lib/server/diff/engine.ts:263-306 | the result is the differ's script on the two token strings, expanded through one table of distinct lines that decodes each token string to its text's lines (`LineDiffs.LineDiffOf`); one token per line on each side; tokens are equal exactly when the lines are; with a correct script the result lists exactly the old and the new lines |
| LineDiffs.TokensMatchLines | src/lib/server/diff/engine.ts:270-286 | with one table of distinct lines, tokens of the two texts are equal exactly when their lines are |
| LineDiffs.LineDiffSides | src/lib/server/diff/engine.ts:263-306 | with a correct script, the line diff's old side is the old text's lines and its new side the new text's |
| LineDiffs.ExpandScript | src/lib/server/diff/engine.ts:293-303 | the expansion loop yields the expansion of the script |
| Hunks.FinishHunk | src/lib/server/diff/engine.ts:308-324 | trims trailing context beyond three lines; appends the hunk with updated counts only when it has a change |
| Hunks.TrimmedLinesDropsContextOnly | src/lib/server/diff/engine.ts:309-317 | the trim removes only trailing context lines; nothing when three or fewer are buffered; it keeps whether the hunk has a change |
| Hunks.TrailingContextAreContext | src/lib/server/diff/engine.ts:309-317 | the trailing run counted is all context |
| Hunks.GroupLines | src/lib/server/diff/engine.ts:188-251 | the grouping loop yields hunks laid out by `Hunks.Layout` |
| Hunks.EqualLine | src/lib/server/diff/engine.ts:195-217 | an equal line keeps the loop invariant, closing the hunk after four trailing context lines |
| Hunks.ChangeLine | src/lib/server/diff/engine.ts:218-245 | a change line keeps the loop invariant, opening a hunk with up to three lines of leading context |
| Hunks.OpenHunk | src/lib/server/diff/engine.ts:219-227 | the new hunk starts at the first buffered line, and its starts are the numbers of that line |
| Hunks.FinishLast | src/lib/server/diff/engine.ts:248-251 | the open hunk at the end is closed and the layout holds |
| Hunks.FinishedWindow | src/lib/server/diff/engine.ts:207-210 | closing after four context lines keeps exactly three of them |
| Hunks.CountOldWindow | src/lib/server/diff/engine.ts:326-329 | the old count of a window is the number of old lines it spans |
| Hunks.CountNewWindow | src/lib/server/diff/engine.ts:326-329 | the new count of a window is the number of new lines it spans |
| Hunks.WindowNumbered | src/lib/server/diff/engine.ts:196-244 | lines are numbered consecutively on each side from the hunk's starts |
| Hunks.HunkOfWellFormed | src/lib/server/diff/engine.ts:248-251 | a span holding a change gives a well-formed hunk |
| Hunks.LayoutWellFormed | src/lib/server/diff/engine.ts:185-256 | every laid-out hunk is well formed |
| Hunks.LayoutSeparated | src/lib/server/diff/engine.ts:207-210 | consecutive hunks do not overlap, and only equal lines, at least four of them, lie between the last change of one and the first change of the next |
| Hunks.LayoutCoversChanges | src/lib/server/diff/engine.ts:218-245 | every change line lies in some hunk, at its position there |
| Hunks.LayoutLine | src/lib/server/diff/engine.ts:194-246 | every hunk line is the numbered line diff at its place |
| Hunks.LayoutEmpty | src/lib/server/diff/engine.ts:248-251 | no hunks exactly when there is no change |
| Hunks.NumberedLineContent | src/lib/server/diff/engine.ts:196-243 | a line's old or new number points at the line with its content on that side |
| WordAnnotate.WithoutInserts | src/lib/server/diff/engine.ts:352 | keeps the spans that are not insertions and drops the insertions; no longer than its input |
| WordAnnotate.WithoutDeletes | src/lib/server/diff/engine.ts:353 | keeps the spans that are not deletions and drops the deletions; no longer than its input |
| WordAnnotate.WithoutInsertsAppend | src/lib/server/diff/engine.ts:352 | the delete-side filter works span by span: filtering a concatenation concatenates the filtered parts, so spans keep their order and repetitions |
| WordAnnotate.WithoutDeletesAppend | src/lib/server/diff/engine.ts:353 | the add-side filter works span by span in the same way |
| WordAnnotate.FiltersSingle | src/lib/server/diff/engine.ts:352-353 | a single span is kept exactly when it is not of the filtered kind |
| WordAnnotate.FilteredText | src/lib/server/diff/engine.ts:352-353 | the spans kept for a deleted line spell the old text the word changes describe; those kept for an added line spell the new text |
| WordAnnotate.AnnotatedSpansSpellContent | src/lib/server/diff/engine.ts:349-354 | with a word differ whose changes spell both texts (`WordAnnotate.WordDiffCorrect`), the spans of a paired line spell that line's own content |
| WordAnnotate.RunEnd | src/lib/server/diff/engine.ts:339-347 | the end of a run of one kind: the run has that kind, and the line after it does not |
| WordAnnotate.Partner | src/lib/server/diff/engine.ts:349-350 | only change lines have a partner, and it lies in the hunk |
| WordAnnotate.DeletePartner | src/lib/server/diff/engine.ts:349-351 | the j-th delete of a block pairs with the j-th add when there is one |
| WordAnnotate.PartnerSymmetric | src/lib/server/diff/engine.ts:349-354 | pairing is symmetric and always joins a delete with an add |
| WordAnnotate.AnnotatedLine | src/lib/server/diff/engine.ts:349-354 | only the word spans change; unpaired lines are untouched; a paired delete gets the word differ's changes from its own content to its partner's, without insertions; a paired add gets the changes from its partner's content to its own, without deletions |
| WordAnnotate.StepOver | src/lib/server/diff/engine.ts:355-357 | a line outside a delete block is left as it is |
| WordAnnotate.PairBlock | src/lib/server/diff/engine.ts:349-354 | the pairing loop annotates one block and leaves earlier lines alone |
| WordAnnotate.ScanBlock | src/lib/server/diff/engine.ts:335-354 | one outer step keeps the invariant and advances |
| WordAnnotate.AnnotateLines | src/lib/server/diff/engine.ts:333-358 | the scan of one hunk annotates every line as `AnnotatedLine` says |
| WordAnnotate.AddWordDiffToHunks | src/lib/server/diff/engine.ts:331-360 | every hunk keeps its header and gets its lines annotated |
| Extractor.UntilNul | src/lib/server/archive/extractor.ts:52-55 | a prefix without zero bytes, stopping at the first zero |
| Extractor.HeaderNameOfFields | src/lib/server/archive/extractor.ts:52-66 | the entry name is the name field, preceded by the prefix field and a slash when the prefix is not empty |
| Extractor.StripsOneComponent | src/lib/server/archive/extractor.ts:68 | the second rewrite strips exactly the first path component |
| Extractor.NormalizeNpmNested | src/lib/server/archive/extractor.ts:68 | `package/lib/a.js` becomes `a.js`: both rewrites apply |
| Extractor.NormalizeNpmDropsDirectory | src/lib/server/archive/extractor.ts:68 | below `package/` the first directory goes too, so files of one name in different directories get the same path |
| Extractor.NormalizeOtherRoot | src/lib/server/archive/extractor.ts:68 | a root other than `package/` is stripped once |
| Extractor.OctalDigits | src/lib/server/archive/extractor.ts:71 | the longest leading run of octal digits |
| Extractor.SizeFieldRoundTrip | src/lib/server/archive/extractor.ts:70-71 | a size written in octal, zero padded and terminated, parses back to itself |
| Extractor.NegativeSizeField | src/lib/server/archive/extractor.ts:70-71 | the size field `-1000` parses as -512 |
| Extractor.JsSlice | src/lib/server/archive/extractor.ts:81 | `slice` never yields more than the data, and within bounds it is the plain subsequence |
| Extractor.ReadMember | src/lib/server/archive/extractor.ts:46-92 | one header: the entry it records, or none, and the size it declares |
| Extractor.ExtractTar | src/lib/server/archive/extractor.ts:39-98 | the loop computes the tar scan, moving past each header by the corrected advance, which counts a negative size as 0; at most 500 entries, each passed by the filter, non-empty, not a directory, within 500 KiB, and keyed by its own path |
| Extractor.TarScanStep | src/lib/server/archive/extractor.ts:43-95 | the scan visits a header, then continues after the padded content |
| Extractor.TarScanKeepsUnwritten | src/lib/server/archive/extractor.ts:84-90 | an entry no later header rewrites is kept as it is |
| Extractor.LastHeaderWins | src/lib/server/archive/extractor.ts:84-90 | an accepted header's entry is in the result unless a later header rewrites it |
| Extractor.VisitTwice | src/lib/server/archive/extractor.ts:84-90 | recording the same header twice is the same as once |
| Extractor.AsWrittenTarStalls | src/lib/server/archive/extractor.ts:94 | as written, a header with size -512 leaves the offset where it was, so the loop repeats that header forever |
| Extractor.NextOffsetAdvances | src/lib/server/archive/extractor.ts:94 | the corrected advance always moves past the header; it agrees with the source for every size above -512 |
| Extractor.ExtractZip | src/lib/server/archive/extractor.ts:100-135 | the loop computes the zip scan; at most 500 entries, each passed by the filter, within 500 KiB, with a non-negative size |
| Extractor.ZipScanProperties | src/lib/server/archive/extractor.ts:104-132 | the zip scan keeps the bound and the per-entry guarantees |
| Extractor.ExtractArchive | src/lib/server/archive/extractor.ts:21-37 | rejects exactly archives over 15 MiB; otherwise unpacks the tar or zip form with the path filter |
| Filters.ListedMeansIn | src/lib/server/diff/filters.ts:1-90 | a table test is membership in the table |
| Filters.ShouldInclude | src/lib/server/diff/filters.ts:98-117 | included exactly when no segment is an excluded directory and the file name is not an excluded file; if included, binary by extension and minified by pattern; an excluded path is neither |
| Filters.ExcludedDirAnywhere | src/lib/server/diff/filters.ts:103-107 | an excluded directory as any whole segment excludes the path |
| Filters.LockFileExcluded | src/lib/server/diff/filters.ts:109-111 | a lock file is excluded in any directory |
| Filters.BinaryByExtension | src/lib/server/diff/filters.ts:101-113 | an included file with a binary extension, in any case, is binary |
| Filters.DotlessNameIsExtension | src/lib/server/diff/filters.ts:101 | a name without a dot is its own extension |
| Filters.IsBinaryContent | src/lib/server/diff/filters.ts:119-131 | the loop decides whether there are two zero bytes among the first 8000 |
| Filters.SniffIgnoresTail | src/lib/server/diff/filters.ts:120 | bytes after the first 8000 never matter |
| Filters.TwoZerosSniffBinary | src/lib/server/diff/filters.ts:123-127 | two zero bytes among the first 8000 make content binary |
| Filters.ZeroCountAppend | src/lib/server/diff/filters.ts:121-128 | zero counts add over concatenation |
| Filters.DetectLanguageAsWritten | src/lib/server/diff/filters.ts:133-183 | no extension gives no language; an inherited member appears only for an extension naming an Object.prototype member |
| Filters.DetectLanguage | src/lib/server/diff/filters.ts:133-183 | a language exactly when the lower-cased extension is a key of the table, and then one of its values |
| Filters.DetectLanguageAgrees | src/lib/server/diff/filters.ts:182 | the corrected lookup agrees with the source whenever the source finds an own key |
| Filters.DetectPrototypeExtension | src/lib/server/diff/filters.ts:182 | as written, `x.constructor` yields Object's constructor instead of no language |
| Filters.DetectLanguageOfDottedDirectory | src/lib/server/diff/filters.ts:134 | the extension is taken from the whole path, so a dotted directory can hide the file's |
| Tree.GetStatusClass | src/lib/utils/tree.ts:62-73 | empty exactly when there is no status |
| Tree.GetStatusIcon | src/lib/utils/tree.ts:75-86 | one character for a status, empty without |
| Tree.StatusShownDistinctly | src/lib/utils/tree.ts:62-86 | distinct statuses get distinct classes and icons |
| Tree.BeforeStrictWeak | src/lib/utils/tree.ts:55-59 | the comparator is a strict weak order when the name order is |
| Tree.InsertNode | src/lib/utils/tree.ts:55-59 | insertion keeps every node and adds one |
| Tree.SortNodes | src/lib/utils/tree.ts:55-59 | sorting is a permutation |
| Tree.SortNodesOrdered | src/lib/utils/tree.ts:55-59 | the sorted nodes are ordered by the comparator |
| Tree.SortNodesKeepsOrder | src/lib/utils/tree.ts:55-59 | already ordered nodes are left as they are |
| Tree.DirectoriesFirst | src/lib/utils/tree.ts:56-57 | in sorted nodes, every directory comes before every file |
| Tree.SortChildren | src/lib/utils/tree.ts:51-54 | the mapping only replaces children, and keeps which nodes have children |
| Tree.SortTreeNodesSorts | src/lib/utils/tree.ts:49-60 | every level is ordered, and the top level is a permutation of the nodes with sorted children |
| Tree.PropagateStatus | src/lib/utils/tree.ts:88-111 | same length; files and childless nodes unchanged; a directory only gets new children and status |
| Tree.DirectoryStatus | src/lib/utils/tree.ts:90-107 | a directory has no status exactly when no child has one; the shared status when all that have one agree; modified when two differ |
| Tree.PropagateIdempotent | src/lib/utils/tree.ts:88-111 | propagating twice is propagating once |
| Tree.NodeMap.constructor | src/lib/utils/tree.ts:4 | an empty map |
| Tree.NodeMap.Set | src/lib/utils/tree.ts:25 | sets the key; a new key goes last in insertion order, an old one keeps its place |
| Tree.ValuesOf | src/lib/utils/tree.ts:46 | the values in key order |
| Tree.CopyChildren | src/lib/utils/tree.ts:35-38 | the child map holds the children by name, in first-seen order |
| Tree.VisitSegment | src/lib/utils/tree.ts:12-42 | one path segment: an existing node is reused, a new one added; a directory's children are reset to a fresh, empty level |
| Tree.AddFile | src/lib/utils/tree.ts:6-43 | one file changes the top level as `AddTop` says |
| Tree.BuildFileTree | src/lib/utils/tree.ts:3-47 | the result is the sorted top level: each top-level name exactly once, with its node, ordered by the comparator |
| Tree.TopLevelNames | src/lib/utils/tree.ts:6-26 | a top-level name exists exactly when some file's path starts with it |
| Tree.TopLevelFirstFile | src/lib/utils/tree.ts:16-24 | the first file through a name fixes its node: a file node with status and file, or a directory |
| Tree.TopLevelChildren | src/lib/utils/tree.ts:30-41 | a top-level directory always has an empty child list, whatever files lie below it |
| Tree.AsWrittenLosesNesting | src/lib/utils/tree.ts:30-41 | as written, the path of a single file `a/b` leads nowhere in the returned tree; the nested tree has it |
| Tree.InsertPath | src/lib/utils/tree.ts:11-42 | the nesting the inner loop aims at: existing names keep their place, and a new node goes last |
| Tree.InsertPathFinds | src/lib/utils/tree.ts:11-42 | after the insertion the file's path leads to a node |
| Tree.InsertPathKeeps | src/lib/utils/tree.ts:11-42 | an insertion loses no path that led to a node before |
| Tree.BuildNestedFindsAll | src/lib/utils/tree.ts:6-43 | in the nested tree every file's path leads to a node |
| Versions.LeadingDigits | src/lib/utils/versions.ts:2 | the longest leading run of decimal digits |
| Versions.ParseDigitsThenText | src/lib/utils/versions.ts:2 | a part parses as the value of its leading digits |
| Versions.Parts | src/lib/utils/versions.ts:2-3 | one number per dot-separated part, each the part's leading integer or 0 |
| Versions.CompareVersions | src/lib/utils/versions.ts:1-11 | the loop computes the version order |
| Versions.CompareFromMeaning | src/lib/utils/versions.ts:5-10 | 0 exactly when all parts agree, missing parts reading 0; otherwise the difference at the first part that differs |
| Versions.CompareReflexive | src/lib/utils/versions.ts:1-11 | a version equals itself |
| Versions.CompareAntisymmetric | src/lib/utils/versions.ts:1-11 | swapping the arguments negates the result |
| Versions.CompareTransitive | src/lib/utils/versions.ts:1-11 | the order is transitive |
| Versions.TrailingZeroIgnored | src/lib/utils/versions.ts:6-7 | a trailing `.0` does not change a version |
| Versions.PreReleaseIgnored | src/lib/utils/versions.ts:2 | `1.0.0-beta` compares equal to `1.0.0` |
| Versions.FirstDots | src/lib/utils/versions.ts:14 | the first `...` at or after a position, or -1 when there is none |
| Versions.ParseVersionRange | src/lib/utils/versions.ts:13-21 | no match exactly when the text has a line terminator or no `...` after its first character; otherwise non-empty parts around the first such `...` |
| Versions.LazyFromVersion | src/lib/utils/versions.ts:14 | `1....2` splits as `1` and `.2` |
| Versions.RangeRoundTrip | src/lib/utils/versions.ts:13-21 | joining two versions with `...` parses back to them when the first has no `..` and does not end in a dot |
| Versions.InvalidVersionMessages | src/lib/utils/versions.ts:23-34 | the message for each combination of invalid versions |
| Prism.GetLanguageAsWritten | src/lib/highlight/prism.ts:49-57 | no extension gives nothing; a file named dockerfile gives docker; an inherited member only for an Object.prototype member name |
| Prism.GetLanguage | src/lib/highlight/prism.ts:49-57 | a language exactly when there is an extension and either the name is dockerfile or the extension is a key; it is always one of the table's values |
| Prism.GetLanguageAgrees | src/lib/highlight/prism.ts:56 | the corrected lookup agrees with the source on own keys, and gives nothing where the source finds an inherited member |
| Prism.PrototypeExtension | src/lib/highlight/prism.ts:56 | as written, `x.constructor` yields Object's constructor, not null |
| Prism.DockerfileAnywhere | src/lib/highlight/prism.ts:53-54 | a file named dockerfile, in any case and any directory, is docker |
| Prism.TrailingDotHasNoLanguage | src/lib/highlight/prism.ts:50-51 | a path ending in a dot has no language |
| Prism.ExtensionDecides | src/lib/highlight/prism.ts:50-56 | a listed extension decides the language in any directory and case |
| Prism.ReplaceAll | src/lib/highlight/prism.ts:68-72 | the result holds only characters of the input other than the replaced one, and characters of the replacement |
| Prism.EscapeHtmlAppend | src/lib/highlight/prism.ts:66-73 | escaping distributes over concatenation |
| Prism.EscapeHtmlChar | src/lib/highlight/prism.ts:66-73 | each character escapes to its entity, `&` first, so entities are not escaped again |
| Prism.EscapeHtmlNoMarkup | src/lib/highlight/prism.ts:66-73 | escaped text holds no `<`, `>`, `"` or `'` |
| Prism.UnescapeEscape | src/lib/highlight/prism.ts:66-73 | unescaping the escaped text gives the text back |
| Prism.Highlight | src/lib/highlight/prism.ts:59-64 | without a grammar, the code is returned escaped: it unescapes to the code and has no tags; with one, the tokenizer's output |
| RateLimit.ClientKey | src/hooks.server.ts:9-12 | never empty; a non-empty `cf-connecting-ip` wins; otherwise a key without commas; `unknown` when neither header has a value |
| RateLimit.FirstForwardedAddress | src/hooks.server.ts:11 | behind proxies the key is the first address of the chain |
| RateLimit.SingleForwardedAddress | src/hooks.server.ts:11 | without `cf-connecting-ip`, a single forwarded address is the key |
| RateLimit.EmptyForwardedFor | src/hooks.server.ts:9-12 | an empty `x-forwarded-for` counts as absent and gives `unknown` |
| Numbers.CeilDiv | src/hooks.server.ts:22 | `Math.ceil` of the quotient: the least integer whose multiple of the divisor reaches the dividend |
| RateLimit.Unexpired | src/hooks.server.ts:31-38 | keeps exactly the windows not closed before now, unchanged |
| RateLimit.Step | src/hooks.server.ts:16-40 | refused exactly when the client's open window is full, and then nothing changes and the retry delay is the seconds left, rounded up |
| RateLimit.StepOwnEntry | src/hooks.server.ts:26-29 | a passed request is counted in its open window, or opens one of one request closing a minute later |
| RateLimit.StepOtherEntry | src/hooks.server.ts:31-38 | another client's window is dropped exactly when the sweep runs and that window closed before now |
| RateLimit.StepKeepsBounded | src/hooks.server.ts:17-29 | every window counts between 1 and 30 requests |
| RateLimit.WindowLimit | src/hooks.server.ts:17-26 | before its window closes, a client gets through no more than the room left in it, whatever others do |
| RateLimit.FreshWindowLimit | src/hooks.server.ts:3-29 | from a client's first request in a new window, at most 30 of its requests pass in the next 60 seconds |
| RateLimit.RetryAfterWithinWindow | src/hooks.server.ts:22 | the retry delay is between 1 and 60 seconds |
| RateLimit.RateLimiter.constructor | src/hooks.server.ts:6 | no client tracked |
| RateLimit.RateLimiter.Handle | src/hooks.server.ts:8-41 | the hook updates the map and decides as `Step` does for the header-derived key, and keeps every count within the limit |
| RateLimit.RateLimiter.Sweep | src/hooks.server.ts:31-38 | deleting over a snapshot leaves exactly the unexpired windows |
| Strings.Split | src/lib/server/diff/engine.ts:95 | at least one piece, none holding the separator |
| Strings.SplitLength | src/lib/server/diff/engine.ts:364 | one piece more than separators |
| Strings.JoinSplit | src/lib/server/diff/engine.ts:264-272 | joining the pieces gives the string back |
| Strings.SplitJoin | src/lib/server/diff/engine.ts:264-272 | splitting joined separator-free pieces gives them back |
| Strings.ToLower | src/lib/server/diff/filters.ts:101 | lower-cases character by character, keeping the length |
| Strings.TrimStartRemovesLeadingSpace | src/lib/server/archive/extractor.ts:70 | removes exactly the leading white space |
| Strings.TrimEndRemovesTrailingSpace | src/lib/server/archive/extractor.ts:70 | removes exactly the trailing white space |
| Strings.LessTransitive | src/lib/server/diff/engine.ts:29 | the string order is transitive |
| Strings.LessTrichotomy | src/lib/server/diff/engine.ts:29 | any two strings are equal or ordered one way |
| Strings.SortedList | src/lib/server/diff/engine.ts:27-29 | the paths sorted: strictly increasing, exactly the set's members |
| Records.RecordGet | src/lib/highlight/prism.ts:56 | an own value exactly for a key of the table; an inherited member exactly for a missing key that names an Object.prototype member |

## Left out

- Fetching the archive and the error for a failed response
  (`src/lib/server/archive/extractor.ts:13-19`) are network I/O. Only the
  size check and the unpacking are modelled.
- `gunzipSync`, `unzipSync` and `TextDecoder` are foreign code and become
  parameters. The zip entries are a sequence in the order `Object.entries`
  gives them.
- diff-match-patch's `diff_main` and the word differ are foreign code and
  become parameters. Content properties of the diff hold when the differ
  returns a correct edit script (`LineDiffs.Reconstructs`).
- LineDiffs.LineTable.LinesToChars: tokens are unbounded integers. The
  source's `String.fromCharCode` wraps at 65536 distinct lines, and
  iterating the token string pairs surrogates beyond 0xD800. Neither is
  modelled, so files with that many distinct lines are outside the model.
- Extractor.OctalDigits, Versions.Parts: numbers are unbounded integers.
  `parseInt`'s loss of precision above 2^53 is not modelled.
- Strings.ToLower: only ASCII letters are lower-cased. Unicode case
  mapping is not modelled.
- Strings.Less: `Array.prototype.sort` compares UTF-16 code units. The
  model compares characters as code points, which orders astral characters
  differently from characters U+E000 to U+FFFF.
- Tree.BuildFileTree: `localeCompare` is the parameter `lt`. Sortedness is
  proved when `lt` is a strict weak order.
- Prism's grammars and tokenizer are foreign code and become parameters of
  `Prism.Highlight`.
- The request, the response bodies and `resolve(event)` are left out. The
  clock and the two headers are parameters of
  `RateLimit.RateLimiter.Handle`, and passing the request on is the
  `Forwarded` outcome.
- The insertion order of the rate limiter's map is not kept, because
  nothing observes it. The sweep deletes in an arbitrary order.
- Hunks and their lines are values. The source shares line objects between
  the context buffer and the open hunk, and annotates them in place. That
  sharing is not observable in the result, so it is not modelled.
- Tree.BuildFileTree: models the builder as written, so directories below
  the top level are lost (see "## Findings"). The evident nesting is
  `Tree.BuildNested`, a function on values. For it the model proves only
  that every file's path leads to a node. It does not prove that names are
  unique at each level, and it does not apply the sorting to it. The status
  propagation and the sorting are modelled over arbitrary trees.
- Tree.SortNodes: `Array.prototype.sort` is stable. The model proves the
  result ordered, a permutation, and unchanged when already in order. It
  does not state that nodes which tie keep their relative order.
- Extractor.ExtractTar: advances with `Extractor.NextOffset`, which counts
  a negative size as 0. The source advances by `ceil(size/512)*512` with
  the size as parsed. It repeats a header forever at size -512 and steps
  back at -1024 or below. The model's scan moves past every header (see
  "## Findings").
- LineDiffs.ComputeLineDiff: the contract fixes the tokens only up to a
  renaming. It states one table of distinct lines that decodes both token
  strings, but not that `linesToChars` numbers lines in the order it first
  sees them. The differ `diff_main` is taken to compare tokens only for
  equality, so the numbering does not change the script it returns.

## Findings

| source | as written | input that shows it | evidently intended | confidence | as-written member | corrected member |
|---|---|---|---|---|---|---|
| src/lib/server/archive/extractor.ts:94 | the offset advances by `ceil(size/512)*512` after the header, and the size field may parse as negative | a tar header whose size field reads `-1000` (octal, -512) | the scan always moves past a header, treating a negative size as 0 | not executed | Extractor.AsWrittenTarStalls | Extractor.ExtractTar |
| src/lib/highlight/prism.ts:56 | `extToLang[ext] ?? null` also finds the members every object inherits | the path `x.constructor` | only the table's own keys name languages, and other extensions give null | not executed | Prism.PrototypeExtension | Prism.GetLanguageAgrees |
| src/lib/server/diff/filters.ts:182 | `languageMap[extension] ?? null` also finds the inherited members | the path `x.constructor` | only the table's own keys name languages, and other extensions give null | not executed | Filters.DetectPrototypeExtension | Filters.DetectLanguageAgrees |
| src/lib/utils/tree.ts:35-41 | each directory's children are copied into a fresh map and the array is replaced by that map's values before any child is added, so nothing is stored below the top level | a single file with path `a/b` | every file appears at its path, below its directories | not executed | Tree.AsWrittenLosesNesting | Tree.BuildNestedFindsAll |
