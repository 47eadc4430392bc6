/** The diff of two versions of a package (computeDiff, createAddedFile,
    createDeletedFile, createModifiedFile, computeHunks and countLines in
    src/lib/server/diff/engine.ts): every path of either file tree, in
    sorted order, yields an added, deleted or modified file, or nothing
    when it did not change; the totals count files and changed lines. */
module Engine {
  import opened Types
  import opened Strings
  import opened LineDiffs
  import opened Hunks
  import opened WordAnnotate

  /** The character differ of diff-match-patch, over token strings. */
  type DiffMain = (seq<int>, seq<int>) -> seq<Edit>

  // ----- countLines -----

  /** `countLines`: nothing for a missing or empty content, and otherwise
      one line more than there are newlines. */
  function CountLines(content: Option<string>): (n: nat)
    ensures content.None? || content.value == "" ==> n == 0
    ensures content.Some? && content.value != "" ==> n == multiset(content.value)['\n'] + 1
  {
    if content.None? || content.value == "" then 0
    else
      SplitLength(content.value, '\n');
      |Split(content.value, '\n')|
  }

  // ----- Counting the lines of hunks -----

  /** The added lines among `lines`. */
  function Adds(lines: seq<DiffLine>): nat
  {
    if lines == [] then 0
    else Adds(lines[..|lines| - 1]) + (if lines[|lines| - 1].kind == Add then 1 else 0)
  }

  /** The deleted lines among `lines`. */
  function Dels(lines: seq<DiffLine>): nat
  {
    if lines == [] then 0
    else Dels(lines[..|lines| - 1]) + (if lines[|lines| - 1].kind == Delete then 1 else 0)
  }

  /** The added lines of all hunks. */
  function HunkAdds(hunks: seq<DiffHunk>): nat
  {
    if hunks == [] then 0 else HunkAdds(hunks[..|hunks| - 1]) + Adds(hunks[|hunks| - 1].lines)
  }

  /** The deleted lines of all hunks. */
  function HunkDels(hunks: seq<DiffHunk>): nat
  {
    if hunks == [] then 0 else HunkDels(hunks[..|hunks| - 1]) + Dels(hunks[|hunks| - 1].lines)
  }

  /** The header counts of a hunk say how many of its lines are added and
      deleted: every line not counted on the old side is an addition, and
      every line not counted on the new side a deletion. */
  lemma {:induction false} HeaderCountsChanges(lines: seq<DiffLine>)
    ensures Adds(lines) == |lines| - CountOld(lines)
    ensures Dels(lines) == |lines| - CountNew(lines)
  {
    if lines != [] {
      HeaderCountsChanges(lines[..|lines| - 1]);
    }
  }

  /** The loops of `computeDiff` that count the added and deleted lines of
      a modified file. */
  method CountChanges(hunks: seq<DiffHunk>) returns (insertions: nat, deletions: nat)
    ensures insertions == HunkAdds(hunks) && deletions == HunkDels(hunks)
  {
    insertions, deletions := 0, 0;
    for h := 0 to |hunks|
      invariant insertions == HunkAdds(hunks[..h]) && deletions == HunkDels(hunks[..h])
    {
      var lines := hunks[h].lines;
      for j := 0 to |lines|
        invariant insertions == HunkAdds(hunks[..h]) + Adds(lines[..j])
        invariant deletions == HunkDels(hunks[..h]) + Dels(lines[..j])
      {
        if lines[j].kind == Add {
          insertions := insertions + 1;
        }
        if lines[j].kind == Delete {
          deletions := deletions + 1;
        }
        assert lines[..j + 1][..j] == lines[..j];
      }
      assert lines[..|lines|] == lines;
      assert hunks[..h + 1][..h] == hunks[..h];
    }
    assert hunks[..|hunks|] == hunks;
  }

  // ----- createAddedFile and createDeletedFile -----

  /** The texts of `lines`. */
  function Contents(lines: seq<DiffLine>): (r: seq<string>)
    ensures |r| == |lines| && forall i :: 0 <= i < |lines| ==> r[i] == lines[i].content
  {
    seq(|lines|, i requires 0 <= i < |lines| => lines[i].content)
  }

  /** Every piece as an added line, numbered from 1 on the new side. */
  function AddedLines(pieces: seq<string>): (r: seq<DiffLine>)
    ensures |r| == |pieces|
  {
    seq(|pieces|, i requires 0 <= i < |pieces| => DiffLine(Add, None, Some(i + 1), pieces[i], None))
  }

  /** Every piece as a deleted line, numbered from 1 on the old side. */
  function DeletedLines(pieces: seq<string>): (r: seq<DiffLine>)
    ensures |r| == |pieces|
  {
    seq(|pieces|, i requires 0 <= i < |pieces| => DiffLine(Delete, Some(i + 1), None, pieces[i], None))
  }

  /** `createAddedFile`: a binary file, or one without content, has no
      hunks; any other has one hunk adding each of its lines. */
  function CreateAddedFile(path: string, file: FileEntry): (r: DiffFile)
    ensures r.path == path && r.status == Added && r.isMinified == file.isMinified
    ensures r.hunks == [] <==> file.isBinary || file.content.None?
    ensures r.isBinary == file.isBinary
  {
    if file.isBinary || file.content.None? then
      DiffFile(path, Added, file.isBinary, file.isMinified, [], None, None)
    else
      var lines := Split(file.content.value, '\n');
      DiffFile(path, Added, false, file.isMinified,
               [DiffHunk(0, 0, 1, |lines|, AddedLines(lines))], None, file.content)
  }

  /** `createDeletedFile`: the mirror image, deleting each line. */
  function CreateDeletedFile(path: string, file: FileEntry): (r: DiffFile)
    ensures r.path == path && r.status == Deleted && r.isMinified == file.isMinified
    ensures r.hunks == [] <==> file.isBinary || file.content.None?
    ensures r.isBinary == file.isBinary
  {
    if file.isBinary || file.content.None? then
      DiffFile(path, Deleted, file.isBinary, file.isMinified, [], None, None)
    else
      var lines := Split(file.content.value, '\n');
      DiffFile(path, Deleted, false, file.isMinified,
               [DiffHunk(1, |lines|, 0, 0, DeletedLines(lines))], file.content, None)
  }

  lemma {:induction false} AllAddsCounted(lines: seq<DiffLine>)
    requires forall i :: 0 <= i < |lines| ==> lines[i].kind == Add
    ensures CountOld(lines) == 0 && CountNew(lines) == |lines|
  {
    if lines != [] {
      AllAddsCounted(lines[..|lines| - 1]);
    }
  }

  lemma {:induction false} AllDeletesCounted(lines: seq<DiffLine>)
    requires forall i :: 0 <= i < |lines| ==> lines[i].kind == Delete
    ensures CountOld(lines) == |lines| && CountNew(lines) == 0
  {
    if lines != [] {
      AllDeletesCounted(lines[..|lines| - 1]);
    }
  }

  /** Pieces as added lines: all additions, showing the pieces in order,
      numbered consecutively from 1 on the new side. */
  lemma {:induction false} AddedLinesShape(pieces: seq<string>)
    ensures var lines := AddedLines(pieces);
      (forall i :: 0 <= i < |lines| ==> lines[i].kind == Add) && Contents(lines) == pieces &&
      CountOld(lines) == 0 && CountNew(lines) == |lines| && NumberedFrom(lines, 0, 1)
  {
    var lines := AddedLines(pieces);
    assert Contents(lines) == pieces;
    AllAddsCounted(lines);
    forall j | 0 <= j < |lines|
      ensures CountOld(lines[..j]) == 0 && CountNew(lines[..j]) == j
    {
      AllAddsCounted(lines[..j]);
    }
  }

  /** Pieces as deleted lines, likewise on the old side. */
  lemma {:induction false} DeletedLinesShape(pieces: seq<string>)
    ensures var lines := DeletedLines(pieces);
      (forall i :: 0 <= i < |lines| ==> lines[i].kind == Delete) && Contents(lines) == pieces &&
      CountOld(lines) == |lines| && CountNew(lines) == 0 && NumberedFrom(lines, 1, 0)
  {
    var lines := DeletedLines(pieces);
    assert Contents(lines) == pieces;
    AllDeletesCounted(lines);
    forall j | 0 <= j < |lines|
      ensures CountOld(lines[..j]) == j && CountNew(lines[..j]) == 0
    {
      AllDeletesCounted(lines[..j]);
    }
  }

  /** The hunk of an added text file: its lines are all additions, joined
      with newlines they give back the file's content, they are numbered
      consecutively from 1 on the new side, and the header counts agree
      with them. */
  lemma {:induction false} AddedFileHunk(path: string, file: FileEntry)
    requires !file.isBinary && file.content.Some?
    ensures var f := CreateAddedFile(path, file);
      |f.hunks| == 1 && f.newContent == file.content &&
      var h := f.hunks[0];
      (forall i :: 0 <= i < |h.lines| ==> h.lines[i].kind == Add) &&
      Join(Contents(h.lines), '\n') == file.content.value &&
      HasChangeLine(h.lines) && h.oldStart == 0 && h.newStart == 1 &&
      h.oldCount == CountOld(h.lines) && h.newCount == CountNew(h.lines) &&
      NumberedFrom(h.lines, h.oldStart, h.newStart)
  {
    var pieces := Split(file.content.value, '\n');
    AddedLinesShape(pieces);
    JoinSplit(file.content.value, '\n');
    assert AddedLines(pieces)[0].kind == Add;
  }

  /** The hunk of a deleted text file, likewise. */
  lemma {:induction false} DeletedFileHunk(path: string, file: FileEntry)
    requires !file.isBinary && file.content.Some?
    ensures var f := CreateDeletedFile(path, file);
      |f.hunks| == 1 && f.oldContent == file.content &&
      var h := f.hunks[0];
      (forall i :: 0 <= i < |h.lines| ==> h.lines[i].kind == Delete) &&
      Join(Contents(h.lines), '\n') == file.content.value &&
      HasChangeLine(h.lines) && h.oldStart == 1 && h.newStart == 0 &&
      h.oldCount == CountOld(h.lines) && h.newCount == CountNew(h.lines) &&
      NumberedFrom(h.lines, h.oldStart, h.newStart)
  {
    var pieces := Split(file.content.value, '\n');
    DeletedLinesShape(pieces);
    JoinSplit(file.content.value, '\n');
    assert DeletedLines(pieces)[0].kind == Delete;
  }

  /** The insertions counted for an added file are the lines its hunk
      adds, unless the file is empty. */
  lemma {:induction false} AddedFileInsertions(path: string, file: FileEntry)
    requires !file.isBinary && file.content.Some? && file.content.value != ""
    ensures CountLines(file.content) == HunkAdds(CreateAddedFile(path, file).hunks)
  {
    var f := CreateAddedFile(path, file);
    AddedFileHunk(path, file);
    HeaderCountsChanges(f.hunks[0].lines);
    assert f.hunks[..0] == [];
  }

  /** The deletions counted for a deleted file are the lines its hunk
      deletes, unless the file is empty. */
  lemma {:induction false} DeletedFileDeletions(path: string, file: FileEntry)
    requires !file.isBinary && file.content.Some? && file.content.value != ""
    ensures CountLines(file.content) == HunkDels(CreateDeletedFile(path, file).hunks)
  {
    var f := CreateDeletedFile(path, file);
    DeletedFileHunk(path, file);
    HeaderCountsChanges(f.hunks[0].lines);
    assert f.hunks[..0] == [];
  }

  /** An empty added file shows one empty added line, which the totals do
      not count. */
  lemma {:induction false} EmptyAddedFile(path: string, file: FileEntry)
    requires !file.isBinary && file.content == Some("")
    ensures CountLines(file.content) == 0
    ensures HunkAdds(CreateAddedFile(path, file).hunks) == 1
  {
    var f := CreateAddedFile(path, file);
    var line := DiffLine(Add, None, Some(1), "", None);
    assert Split("", '\n') == [""];
    assert AddedLines([""])[0] == line;
    assert AddedLines([""]) == [line];
    assert f.hunks == [DiffHunk(0, 0, 1, 1, [line])];
    assert [line][..0] == [];
    assert Adds([line]) == 1;
    assert f.hunks[..0] == [];
  }

  // ----- computeHunks and createModifiedFile -----

  /** The hunks of a modified file, with what they come from: a line
      diff `L` of the two texts, the hunks `grouped` that the grouping loop
      makes of it over the spans `spans`, and the word annotation of those
      hunks. When the differ's scripts rebuild their inputs, the two sides
      of `L` are the lines of the two texts. */
  ghost predicate DiffHunks(oldLines: seq<string>, newLines: seq<string>, hunks: seq<DiffHunk>,
                            L: seq<LineDiff>, grouped: seq<DiffHunk>, spans: seq<Span>,
                            diffMain: DiffMain, wordDiff: WordDiffer)
  {
    Layout(L, grouped, spans) &&
    |hunks| == |grouped| &&
    (forall i :: 0 <= i < |hunks| ==> hunks[i] == grouped[i].(lines := Annotated(grouped[i].lines, wordDiff))) &&
    (Reconstructs(diffMain) ==>
      OldLines(L) == Split(Join(oldLines, '\n'), '\n') && NewLines(L) == Split(Join(newLines, '\n'), '\n'))
  }

  /** `computeHunks`: the line diff, grouped into hunks, annotated word by
      word. */
  method ComputeHunks(oldLines: seq<string>, newLines: seq<string>, diffMain: DiffMain, wordDiff: WordDiffer)
    returns (hunks: seq<DiffHunk>, ghost L: seq<LineDiff>, ghost grouped: seq<DiffHunk>, ghost spans: seq<Span>)
    ensures ComputedLineDiff(oldLines, newLines, diffMain, L)
    ensures DiffHunks(oldLines, newLines, hunks, L, grouped, spans, diffMain, wordDiff)
  {
    var lineDiffs, oldTokens, newTokens, lineArray := ComputeLineDiff(oldLines, newLines, diffMain);
    if Reconstructs(diffMain) {
      assert ValidScript(diffMain(oldTokens, newTokens), oldTokens, newTokens);
    }
    L := lineDiffs;
    assert LineDiffOf(oldLines, newLines, diffMain, L, oldTokens, newTokens, lineArray);
    hunks, spans := GroupLines(lineDiffs);
    grouped := hunks;
    hunks := AddWordDiffToHunks(hunks, wordDiff);
  }

  /** Lines of the same kinds have the same header counts, prefix by
      prefix. */
  lemma {:induction false} SameKindsCounts(a: seq<DiffLine>, b: seq<DiffLine>, j: nat)
    requires |a| == |b| && j <= |a| && forall k :: 0 <= k < |a| ==> a[k].kind == b[k].kind
    ensures CountOld(a[..j]) == CountOld(b[..j]) && CountNew(a[..j]) == CountNew(b[..j])
  {
    if j > 0 {
      SameKindsCounts(a, b, j - 1);
      assert a[..j][..j - 1] == a[..j - 1] && b[..j][..j - 1] == b[..j - 1];
    }
  }

  /** The annotation changes only the word spans of the lines. */
  lemma {:induction false} AnnotatedShape(lines: seq<DiffLine>, wordDiff: WordDiffer)
    ensures var a := Annotated(lines, wordDiff);
      |a| == |lines| && forall k :: 0 <= k < |a| ==> a[k] == lines[k].(wordDiff := a[k].wordDiff)
  {
    var a := Annotated(lines, wordDiff);
    forall k | 0 <= k < |a|
      ensures a[k] == lines[k].(wordDiff := a[k].wordDiff)
    {
      assert a[k] == AnnotatedLine(lines, k, wordDiff);
    }
  }

  /** Lines that differ only in their word spans are numbered alike. */
  lemma {:induction false} SameShapeNumbered(a: seq<DiffLine>, b: seq<DiffLine>, oldStart: int, newStart: int)
    requires |a| == |b| && forall k :: 0 <= k < |a| ==> a[k] == b[k].(wordDiff := a[k].wordDiff)
    requires NumberedFrom(b, oldStart, newStart)
    ensures NumberedFrom(a, oldStart, newStart)
  {
    forall j | 0 <= j < |a|
      ensures a[j].oldNumber == if a[j].kind == Add then None else Some(oldStart + CountOld(a[..j]))
      ensures a[j].newNumber == if a[j].kind == Delete then None else Some(newStart + CountNew(a[..j]))
    {
      SameKindsCounts(a, b, j);
      assert a[j].kind == b[j].kind && a[j].oldNumber == b[j].oldNumber && a[j].newNumber == b[j].newNumber;
    }
  }

  /** The word annotation keeps a well-formed hunk well formed. */
  lemma {:induction false} AnnotationKeepsWellFormed(h: DiffHunk, wordDiff: WordDiffer)
    requires WellFormed(h)
    ensures WellFormed(h.(lines := Annotated(h.lines, wordDiff)))
  {
    var a := Annotated(h.lines, wordDiff);
    AnnotatedShape(h.lines, wordDiff);
    SameKindsCounts(a, h.lines, |a|);
    assert a[..|a|] == a && h.lines[..|a|] == h.lines;
    SameShapeNumbered(a, h.lines, h.oldStart, h.newStart);
    var c :| 0 <= c < |h.lines| && h.lines[c].kind != Context;
    assert a[c].kind != Context;
  }

  /** Every hunk of a modified file is well formed. */
  lemma {:induction false} DiffHunksWellFormed(oldLines: seq<string>, newLines: seq<string>, hunks: seq<DiffHunk>,
                            L: seq<LineDiff>, grouped: seq<DiffHunk>, spans: seq<Span>,
                            diffMain: DiffMain, wordDiff: WordDiffer, i: nat)
    requires DiffHunks(oldLines, newLines, hunks, L, grouped, spans, diffMain, wordDiff)
    requires i < |hunks|
    ensures WellFormed(hunks[i])
  {
    LayoutWellFormed(L, grouped, spans, i);
    AnnotationKeepsWellFormed(grouped[i], wordDiff);
  }

  /** Every line of a hunk shows, under its old number, that line of the
      old text and, under its new number, that line of the new text. */
  lemma {:induction false} DiffHunksShowTexts(oldLines: seq<string>, newLines: seq<string>, hunks: seq<DiffHunk>,
                           L: seq<LineDiff>, grouped: seq<DiffHunk>, spans: seq<Span>,
                           diffMain: DiffMain, wordDiff: WordDiffer, i: nat, t: nat)
    requires DiffHunks(oldLines, newLines, hunks, L, grouped, spans, diffMain, wordDiff)
    requires Reconstructs(diffMain) && i < |hunks| && t < |hunks[i].lines|
    ensures var d := hunks[i].lines[t];
      var olds := Split(Join(oldLines, '\n'), '\n');
      var news := Split(Join(newLines, '\n'), '\n');
      (d.oldNumber.Some? ==> 1 <= d.oldNumber.value <= |olds| && olds[d.oldNumber.value - 1] == d.content) &&
      (d.newNumber.Some? ==> 1 <= d.newNumber.value <= |news| && news[d.newNumber.value - 1] == d.content)
  {
    assert hunks[i].lines[t] == AnnotatedLine(grouped[i].lines, t, wordDiff);
    LayoutLine(L, grouped, spans, i, t);
    NumberedLineContent(L, spans[i].start + t);
  }

  /** A line diff without changes has the same two sides. */
  lemma {:induction false} UnchangedSides(L: seq<LineDiff>)
    requires forall j :: 0 <= j < |L| ==> !IsChange(L, j)
    ensures OldLines(L) == NewLines(L)
  {
    if L != [] {
      var init := L[..|L| - 1];
      forall j | 0 <= j < |init| ensures !IsChange(init, j) {
        assert !IsChange(L, j);
      }
      assert !IsChange(L, |L| - 1);
      UnchangedSides(init);
    }
  }

  /** Two different texts always get a hunk; two texts whose line diff
      holds no change get none. */
  lemma {:induction false} DiffHunksEmpty(oldLines: seq<string>, newLines: seq<string>, hunks: seq<DiffHunk>,
                       L: seq<LineDiff>, grouped: seq<DiffHunk>, spans: seq<Span>,
                       diffMain: DiffMain, wordDiff: WordDiffer)
    requires DiffHunks(oldLines, newLines, hunks, L, grouped, spans, diffMain, wordDiff)
    ensures hunks == [] <==> forall j :: 0 <= j < |L| ==> !IsChange(L, j)
    ensures Reconstructs(diffMain) && Join(oldLines, '\n') != Join(newLines, '\n') ==> hunks != []
  {
    LayoutEmpty(L, grouped, spans);
    if Reconstructs(diffMain) && hunks == [] {
      UnchangedSides(L);
      JoinSplit(Join(oldLines, '\n'), '\n');
      JoinSplit(Join(newLines, '\n'), '\n');
    }
  }

  /** What `createModifiedFile` gives for a path present in both trees:
      a text diff of the two contents, a missing content read as empty. */
  ghost predicate ModifiedOf(path: string, oldFile: FileEntry, newFile: FileEntry, f: DiffFile,
                             diffMain: DiffMain, wordDiff: WordDiffer)
  {
    var oldText := oldFile.content.GetOr("");
    var newText := newFile.content.GetOr("");
    f.path == path && f.status == Modified && !f.isBinary &&
    f.isMinified == (oldFile.isMinified || newFile.isMinified) &&
    f.oldContent == Some(oldText) && f.newContent == Some(newText) &&
    exists L, grouped, spans ::
      ComputedLineDiff(Split(oldText, '\n'), Split(newText, '\n'), diffMain, L) &&
      DiffHunks(Split(oldText, '\n'), Split(newText, '\n'), f.hunks, L, grouped, spans, diffMain, wordDiff)
  }

  /** `createModifiedFile`. */
  method CreateModifiedFile(path: string, oldFile: FileEntry, newFile: FileEntry,
                            diffMain: DiffMain, wordDiff: WordDiffer)
    returns (f: DiffFile)
    ensures ModifiedOf(path, oldFile, newFile, f, diffMain, wordDiff)
  {
    var oldContent := oldFile.content.GetOr("");
    var newContent := newFile.content.GetOr("");
    var oldLines := Split(oldContent, '\n');
    var newLines := Split(newContent, '\n');
    var hunks, L, grouped, spans := ComputeHunks(oldLines, newLines, diffMain, wordDiff);
    f := DiffFile(path, Modified, false, oldFile.isMinified || newFile.isMinified, hunks,
                  Some(oldContent), Some(newContent));
  }

  /** A modified text file gets hunks when its two contents differ and
      the differ's scripts rebuild their inputs. */
  lemma {:induction false} ModifiedNonEmpty(path: string, oldFile: FileEntry, newFile: FileEntry, f: DiffFile,
                         diffMain: DiffMain, wordDiff: WordDiffer)
    requires ModifiedOf(path, oldFile, newFile, f, diffMain, wordDiff) && Reconstructs(diffMain)
    requires oldFile.content.GetOr("") != newFile.content.GetOr("")
    ensures f.hunks != []
  {
    var olds := Split(oldFile.content.GetOr(""), '\n');
    var news := Split(newFile.content.GetOr(""), '\n');
    var L, grouped, spans :| DiffHunks(olds, news, f.hunks, L, grouped, spans, diffMain, wordDiff);
    JoinSplit(oldFile.content.GetOr(""), '\n');
    JoinSplit(newFile.content.GetOr(""), '\n');
    DiffHunksEmpty(olds, news, f.hunks, L, grouped, spans, diffMain, wordDiff);
  }

  /** The lines of a text, joined and split again, are those lines. */
  lemma {:induction false} SplitJoinedLines(text: string)
    ensures Split(Join(Split(text, '\n'), '\n'), '\n') == Split(text, '\n')
  {
    JoinSplit(text, '\n');
  }

  /** `DiffHunksShowTexts` for the hunks of two whole texts. */
  lemma {:induction false} TextHunksShowTexts(oldText: string, newText: string, hunks: seq<DiffHunk>,
                           L: seq<LineDiff>, grouped: seq<DiffHunk>, spans: seq<Span>,
                           diffMain: DiffMain, wordDiff: WordDiffer, i: nat, t: nat)
    requires DiffHunks(Split(oldText, '\n'), Split(newText, '\n'), hunks, L, grouped, spans, diffMain, wordDiff)
    requires Reconstructs(diffMain) && i < |hunks| && t < |hunks[i].lines|
    ensures var d := hunks[i].lines[t];
      var olds := Split(oldText, '\n');
      var news := Split(newText, '\n');
      (d.oldNumber.Some? ==> 1 <= d.oldNumber.value <= |olds| && olds[d.oldNumber.value - 1] == d.content) &&
      (d.newNumber.Some? ==> 1 <= d.newNumber.value <= |news| && news[d.newNumber.value - 1] == d.content)
  {
    SplitJoinedLines(oldText);
    SplitJoinedLines(newText);
    DiffHunksShowTexts(Split(oldText, '\n'), Split(newText, '\n'), hunks, L, grouped, spans, diffMain, wordDiff, i, t);
  }

  /** Every line of a modified file's hunks shows, under its old number,
      that line of the old content and, under its new number, that line
      of the new content. */
  lemma {:induction false} ModifiedShowsTexts(path: string, oldFile: FileEntry, newFile: FileEntry, f: DiffFile,
                           diffMain: DiffMain, wordDiff: WordDiffer, i: nat, t: nat)
    requires ModifiedOf(path, oldFile, newFile, f, diffMain, wordDiff) && Reconstructs(diffMain)
    requires i < |f.hunks| && t < |f.hunks[i].lines|
    ensures var d := f.hunks[i].lines[t];
      var olds := Split(f.oldContent.value, '\n');
      var news := Split(f.newContent.value, '\n');
      (d.oldNumber.Some? ==> 1 <= d.oldNumber.value <= |olds| && olds[d.oldNumber.value - 1] == d.content) &&
      (d.newNumber.Some? ==> 1 <= d.newNumber.value <= |news| && news[d.newNumber.value - 1] == d.content)
  {
    var oldText := oldFile.content.GetOr("");
    var newText := newFile.content.GetOr("");
    var L, grouped, spans :|
      DiffHunks(Split(oldText, '\n'), Split(newText, '\n'), f.hunks, L, grouped, spans, diffMain, wordDiff);
    TextHunksShowTexts(oldText, newText, f.hunks, L, grouped, spans, diffMain, wordDiff, i, t);
  }

  /** Every hunk of a modified file is well formed. */
  lemma {:induction false} ModifiedWellFormed(path: string, oldFile: FileEntry, newFile: FileEntry, f: DiffFile,
                           diffMain: DiffMain, wordDiff: WordDiffer, i: nat)
    requires ModifiedOf(path, oldFile, newFile, f, diffMain, wordDiff) && i < |f.hunks|
    ensures WellFormed(f.hunks[i])
  {
    var oldText := oldFile.content.GetOr("");
    var newText := newFile.content.GetOr("");
    var L, grouped, spans :|
      DiffHunks(Split(oldText, '\n'), Split(newText, '\n'), f.hunks, L, grouped, spans, diffMain, wordDiff);
    DiffHunksWellFormed(Split(oldText, '\n'), Split(newText, '\n'), f.hunks, L, grouped, spans, diffMain, wordDiff, i);
  }

  // ----- computeDiff -----

  /** The entry of a path present in both trees, one of them binary, whose
      sizes differ. */
  function BinaryChange(path: string, oldFile: FileEntry, newFile: FileEntry): DiffFile
  {
    DiffFile(path, Modified, true, oldFile.isMinified || newFile.isMinified, [], None, None)
  }

  /** Whether either version of a path is binary. */
  predicate EitherBinary(oldTree: FileTree, newTree: FileTree, p: string)
    requires p in oldTree && p in newTree
  {
    oldTree[p].isBinary || newTree[p].isBinary
  }

  /** The entry the diff lists for path `p`. */
  ghost predicate Emitted(oldTree: FileTree, newTree: FileTree, p: string, f: DiffFile,
                          diffMain: DiffMain, wordDiff: WordDiffer)
  {
    (p !in oldTree && p in newTree && f == CreateAddedFile(newTree[p].path, newTree[p])) ||
    (p in oldTree && p !in newTree && f == CreateDeletedFile(oldTree[p].path, oldTree[p])) ||
    (p in oldTree && p in newTree && EitherBinary(oldTree, newTree, p) &&
     oldTree[p].size != newTree[p].size && f == BinaryChange(p, oldTree[p], newTree[p])) ||
    (p in oldTree && p in newTree && !EitherBinary(oldTree, newTree, p) &&
     oldTree[p].content != newTree[p].content && f.hunks != [] &&
     ModifiedOf(p, oldTree[p], newTree[p], f, diffMain, wordDiff))
  }

  /** A path present in both trees that the diff leaves out: a binary file
      of unchanged size, or a text file whose contents are equal, or read
      as equal, or whose hunks came out empty because the differ's
      script did not rebuild its inputs. */
  ghost predicate Skipped(oldTree: FileTree, newTree: FileTree, p: string, diffMain: DiffMain)
  {
    p in oldTree && p in newTree &&
    if EitherBinary(oldTree, newTree, p) then oldTree[p].size == newTree[p].size
    else oldTree[p].content.GetOr("") == newTree[p].content.GetOr("") || !Reconstructs(diffMain)
  }

  /** The insertions `computeDiff` counts for the entry `f` of path `p`. */
  function FileInsertions(oldTree: FileTree, newTree: FileTree, p: string, f: DiffFile): nat
  {
    if p !in oldTree && p in newTree then CountLines(newTree[p].content)
    else if p in oldTree && p in newTree && !EitherBinary(oldTree, newTree, p) then HunkAdds(f.hunks)
    else 0
  }

  /** The deletions `computeDiff` counts for the entry `f` of path `p`. */
  function FileDeletions(oldTree: FileTree, newTree: FileTree, p: string, f: DiffFile): nat
  {
    if p in oldTree && p !in newTree then CountLines(oldTree[p].content)
    else if p in oldTree && p in newTree && !EitherBinary(oldTree, newTree, p) then HunkDels(f.hunks)
    else 0
  }

  function Insertions(oldTree: FileTree, newTree: FileTree, paths: seq<string>, files: seq<DiffFile>): nat
    requires |paths| == |files|
  {
    if paths == [] then 0
    else Insertions(oldTree, newTree, paths[..|paths| - 1], files[..|files| - 1]) +
         FileInsertions(oldTree, newTree, paths[|paths| - 1], files[|files| - 1])
  }

  function Deletions(oldTree: FileTree, newTree: FileTree, paths: seq<string>, files: seq<DiffFile>): nat
    requires |paths| == |files|
  {
    if paths == [] then 0
    else Deletions(oldTree, newTree, paths[..|paths| - 1], files[..|files| - 1]) +
         FileDeletions(oldTree, newTree, paths[|paths| - 1], files[|files| - 1])
  }

  /** One path of `computeDiff`'s loop: the entry it lists, if any, and the
      insertions and deletions it adds to the totals. */
  method DiffPath(oldTree: FileTree, newTree: FileTree, p: string, diffMain: DiffMain, wordDiff: WordDiffer)
    returns (f: Option<DiffFile>, insertions: nat, deletions: nat)
    requires p in oldTree || p in newTree
    ensures f.Some? ==> (Emitted(oldTree, newTree, p, f.value, diffMain, wordDiff) &&
      insertions == FileInsertions(oldTree, newTree, p, f.value) &&
      deletions == FileDeletions(oldTree, newTree, p, f.value))
    ensures f.None? ==> Skipped(oldTree, newTree, p, diffMain) && insertions == 0 && deletions == 0
  {
    if p !in oldTree {
      var newFile := newTree[p];
      f := Some(CreateAddedFile(newFile.path, newFile));
      insertions, deletions := CountLines(newFile.content), 0;
    } else if p !in newTree {
      var oldFile := oldTree[p];
      f := Some(CreateDeletedFile(oldFile.path, oldFile));
      insertions, deletions := 0, CountLines(oldFile.content);
    } else {
      var oldFile, newFile := oldTree[p], newTree[p];
      f, insertions, deletions := None, 0, 0;
      if oldFile.isBinary || newFile.isBinary {
        if oldFile.size != newFile.size {
          f := Some(BinaryChange(p, oldFile, newFile));
        }
      } else if oldFile.content != newFile.content {
        var diffFile := CreateModifiedFile(p, oldFile, newFile, diffMain, wordDiff);
        if |diffFile.hunks| > 0 {
          f := Some(diffFile);
          insertions, deletions := CountChanges(diffFile.hunks);
        } else if Reconstructs(diffMain) && oldFile.content.GetOr("") != newFile.content.GetOr("") {
          ModifiedNonEmpty(p, oldFile, newFile, diffFile, diffMain, wordDiff);
        }
      }
    }
  }

  /** The listed paths sit, in order, at the indices `idx` among the
      first `n` sorted paths. */
  ghost predicate Picked(allPaths: seq<string>, n: nat, paths: seq<string>, idx: seq<nat>)
  {
    |paths| == |idx| &&
    (forall i :: 0 <= i < |idx| ==> idx[i] < n && idx[i] < |allPaths| && paths[i] == allPaths[idx[i]]) &&
    (forall i, j :: 0 <= i < j < |idx| ==> idx[i] < idx[j])
  }

  /** Every listed path has the entry `Emitted` describes. */
  ghost predicate AllEmitted(oldTree: FileTree, newTree: FileTree, paths: seq<string>, files: seq<DiffFile>,
                             diffMain: DiffMain, wordDiff: WordDiffer)
  {
    |paths| == |files| &&
    forall i :: 0 <= i < |paths| ==> Emitted(oldTree, newTree, paths[i], files[i], diffMain, wordDiff)
  }

  /** Each of the first `n` sorted paths is listed or passed over. */
  ghost predicate Covered(oldTree: FileTree, newTree: FileTree, allPaths: seq<string>, n: nat,
                          paths: seq<string>, diffMain: DiffMain)
    requires n <= |allPaths|
  {
    forall m :: 0 <= m < n ==> allPaths[m] in paths || Skipped(oldTree, newTree, allPaths[m], diffMain)
  }

  lemma {:induction false} PickedSnoc(allPaths: seq<string>, n: nat, paths: seq<string>, idx: seq<nat>)
    requires Picked(allPaths, n, paths, idx) && n < |allPaths|
    ensures Picked(allPaths, n + 1, paths + [allPaths[n]], idx + [n])
  {
  }

  lemma {:induction false} EmittedSnoc(oldTree: FileTree, newTree: FileTree, paths: seq<string>, files: seq<DiffFile>,
                    p: string, f: DiffFile, diffMain: DiffMain, wordDiff: WordDiffer)
    requires AllEmitted(oldTree, newTree, paths, files, diffMain, wordDiff)
    requires Emitted(oldTree, newTree, p, f, diffMain, wordDiff)
    ensures AllEmitted(oldTree, newTree, paths + [p], files + [f], diffMain, wordDiff)
  {
    forall i | 0 <= i < |paths| + 1
      ensures Emitted(oldTree, newTree, (paths + [p])[i], (files + [f])[i], diffMain, wordDiff)
    {
      if i < |paths| {
        assert (paths + [p])[i] == paths[i] && (files + [f])[i] == files[i];
      }
    }
  }

  lemma {:induction false} CoveredListed(oldTree: FileTree, newTree: FileTree, allPaths: seq<string>, n: nat,
                      paths: seq<string>, diffMain: DiffMain)
    requires n < |allPaths| && Covered(oldTree, newTree, allPaths, n, paths, diffMain)
    ensures Covered(oldTree, newTree, allPaths, n + 1, paths + [allPaths[n]], diffMain)
  {
    forall m | 0 <= m < n + 1
      ensures allPaths[m] in paths + [allPaths[n]] || Skipped(oldTree, newTree, allPaths[m], diffMain)
    {
      if m < n && allPaths[m] in paths {
        assert allPaths[m] in paths + [allPaths[n]];
      }
    }
  }

  lemma {:induction false} CoveredSkipped(oldTree: FileTree, newTree: FileTree, allPaths: seq<string>, n: nat,
                       paths: seq<string>, diffMain: DiffMain)
    requires n < |allPaths| && Covered(oldTree, newTree, allPaths, n, paths, diffMain)
    requires Skipped(oldTree, newTree, allPaths[n], diffMain)
    ensures Covered(oldTree, newTree, allPaths, n + 1, paths, diffMain)
  {
  }

  /** The totals grow by the counts of the path appended. */
  lemma {:induction false} TotalsSnoc(oldTree: FileTree, newTree: FileTree, paths: seq<string>, files: seq<DiffFile>,
                   p: string, f: DiffFile)
    requires |paths| == |files|
    ensures Insertions(oldTree, newTree, paths + [p], files + [f]) ==
      Insertions(oldTree, newTree, paths, files) + FileInsertions(oldTree, newTree, p, f)
    ensures Deletions(oldTree, newTree, paths + [p], files + [f]) ==
      Deletions(oldTree, newTree, paths, files) + FileDeletions(oldTree, newTree, p, f)
  {
    assert (paths + [p])[..|paths|] == paths && (files + [f])[..|files|] == files;
  }

  /** One turn of `computeDiff`'s loop, for the `n`-th sorted path. */
  method VisitPath(oldTree: FileTree, newTree: FileTree, allPaths: seq<string>, n: nat,
                   ghost paths: seq<string>, ghost idx: seq<nat>, files: seq<DiffFile>, stats: DiffStats,
                   diffMain: DiffMain, wordDiff: WordDiffer)
    returns (ghost paths': seq<string>, ghost idx': seq<nat>, files': seq<DiffFile>, stats': DiffStats)
    requires n < |allPaths| && (allPaths[n] in oldTree || allPaths[n] in newTree)
    requires stats.files == |files| == |paths|
    requires Picked(allPaths, n, paths, idx)
    requires AllEmitted(oldTree, newTree, paths, files, diffMain, wordDiff)
    requires Covered(oldTree, newTree, allPaths, n, paths, diffMain)
    requires stats.insertions == Insertions(oldTree, newTree, paths, files)
    requires stats.deletions == Deletions(oldTree, newTree, paths, files)
    ensures stats'.files == |files'| == |paths'|
    ensures Picked(allPaths, n + 1, paths', idx')
    ensures AllEmitted(oldTree, newTree, paths', files', diffMain, wordDiff)
    ensures Covered(oldTree, newTree, allPaths, n + 1, paths', diffMain)
    ensures stats'.insertions == Insertions(oldTree, newTree, paths', files')
    ensures stats'.deletions == Deletions(oldTree, newTree, paths', files')
  {
    var p := allPaths[n];
    var f, insertions, deletions := DiffPath(oldTree, newTree, p, diffMain, wordDiff);
    if f.Some? {
      PickedSnoc(allPaths, n, paths, idx);
      EmittedSnoc(oldTree, newTree, paths, files, p, f.value, diffMain, wordDiff);
      CoveredListed(oldTree, newTree, allPaths, n, paths, diffMain);
      TotalsSnoc(oldTree, newTree, paths, files, p, f.value);
      paths', idx' := paths + [p], idx + [n];
      files' := files + [f.value];
      stats' := DiffStats(stats.files + 1, stats.insertions + insertions, stats.deletions + deletions);
    } else {
      CoveredSkipped(oldTree, newTree, allPaths, n, paths, diffMain);
      paths', idx', files', stats' := paths, idx, files, stats;
    }
  }

  /** At the end of the loop: the listed paths ascend, and every path of
      either tree is listed or passed over. */
  lemma {:induction false} ProgressDone(oldTree: FileTree, newTree: FileTree, allPaths: seq<string>,
                     paths: seq<string>, idx: seq<nat>, diffMain: DiffMain)
    requires Picked(allPaths, |allPaths|, paths, idx) && Covered(oldTree, newTree, allPaths, |allPaths|, paths, diffMain)
    requires StrictlySorted(allPaths)
    requires forall p :: p in allPaths <==> p in oldTree || p in newTree
    ensures StrictlySorted(paths)
    ensures forall p :: p in oldTree || p in newTree ==> p in paths || Skipped(oldTree, newTree, p, diffMain)
  {
    forall i, j | 0 <= i < j < |paths| ensures Less(paths[i], paths[j]) {
      assert paths[i] == allPaths[idx[i]] && paths[j] == allPaths[idx[j]];
    }
    forall p | p in oldTree || p in newTree
      ensures p in paths || Skipped(oldTree, newTree, p, diffMain)
    {
      var m :| 0 <= m < |allPaths| && allPaths[m] == p;
    }
  }

  /** `computeDiff`: the paths of both trees in ascending order, each
      listed as added, deleted or modified, or left out when unchanged;
      the totals count the listed files and their added and deleted
      lines. The ghost `paths` are the paths of the listed files. */
  method ComputeDiff(oldTree: FileTree, newTree: FileTree, packageType: PackageType,
                     packageName: string, fromVersion: string, toVersion: string,
                     diffMain: DiffMain, wordDiff: WordDiffer)
    returns (r: DiffResult, ghost paths: seq<string>)
    ensures r.packageType == packageType && r.packageName == packageName
    ensures r.fromVersion == fromVersion && r.toVersion == toVersion
    ensures r.stats.files == |r.files| == |paths|
    ensures StrictlySorted(paths)
    ensures forall i :: 0 <= i < |paths| ==> Emitted(oldTree, newTree, paths[i], r.files[i], diffMain, wordDiff)
    ensures forall p :: p in oldTree || p in newTree ==> p in paths || Skipped(oldTree, newTree, p, diffMain)
    ensures r.stats.insertions == Insertions(oldTree, newTree, paths, r.files)
    ensures r.stats.deletions == Deletions(oldTree, newTree, paths, r.files)
  {
    var allPaths := SortedList(oldTree.Keys + newTree.Keys);
    var files: seq<DiffFile> := [];
    var stats := DiffStats(0, 0, 0);
    paths := [];
    ghost var idx: seq<nat> := [];
    for n := 0 to |allPaths|
      invariant stats.files == |files| == |paths|
      invariant Picked(allPaths, n, paths, idx)
      invariant AllEmitted(oldTree, newTree, paths, files, diffMain, wordDiff)
      invariant Covered(oldTree, newTree, allPaths, n, paths, diffMain)
      invariant stats.insertions == Insertions(oldTree, newTree, paths, files)
      invariant stats.deletions == Deletions(oldTree, newTree, paths, files)
    {
      assert allPaths[n] in oldTree.Keys + newTree.Keys;
      paths, idx, files, stats := VisitPath(oldTree, newTree, allPaths, n, paths, idx, files, stats, diffMain, wordDiff);
    }
    ProgressDone(oldTree, newTree, allPaths, paths, idx, diffMain);
    r := DiffResult(packageType, packageName, fromVersion, toVersion, files, stats);
  }
}
