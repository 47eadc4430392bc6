/** The word-level annotation of a hunk (addWordDiffToHunks in
    src/lib/server/diff/engine.ts): inside every block made of a run of
    deleted lines followed by a run of added lines, the j-th deleted line
    is compared word by word with the j-th added line; the deleted line
    keeps the spans that are not insertions and the added line the spans
    that are not deletions. The word differ itself (diff-match-patch with
    semantic cleanup) is library code and a parameter here. */
module WordAnnotate {
  import opened Types

  /** A word differ: old text and new text to word changes. */
  type WordDiffer = (string, string) -> seq<WordChange>

  /** The spans that are not insertions, in order. */
  function WithoutInserts(ws: seq<WordChange>): (r: seq<WordChange>)
    ensures |r| <= |ws|
    ensures forall w :: w in r <==> w in ws && w.kind != WordInsert
  {
    if ws == [] then []
    else if ws[0].kind == WordInsert then WithoutInserts(ws[1..])
    else [ws[0]] + WithoutInserts(ws[1..])
  }

  /** The spans that are not deletions, in order. */
  function WithoutDeletes(ws: seq<WordChange>): (r: seq<WordChange>)
    ensures |r| <= |ws|
    ensures forall w :: w in r <==> w in ws && w.kind != WordDelete
  {
    if ws == [] then []
    else if ws[0].kind == WordDelete then WithoutDeletes(ws[1..])
    else [ws[0]] + WithoutDeletes(ws[1..])
  }

  /** Both filters work span by span: filtering a concatenation is
      concatenating the filtered parts, and a single span is kept exactly
      when it is not of the filtered kind. So each keeps its spans in order
      and with their repetitions. */
  lemma {:induction false} WithoutInsertsAppend(a: seq<WordChange>, b: seq<WordChange>)
    ensures WithoutInserts(a + b) == WithoutInserts(a) + WithoutInserts(b)
  {
    if a == [] {
      assert a + b == b;
    } else {
      var ab := a + b;
      assert ab[0] == a[0];
      assert ab[1..] == a[1..] + b;
      WithoutInsertsAppend(a[1..], b);
      if a[0].kind == WordInsert {
        calc {
          WithoutInserts(ab);
          WithoutInserts(a[1..] + b);
          WithoutInserts(a[1..]) + WithoutInserts(b);
          WithoutInserts(a) + WithoutInserts(b);
        }
      } else {
        var x, y := WithoutInserts(a[1..]), WithoutInserts(b);
        calc {
          WithoutInserts(ab);
          [a[0]] + WithoutInserts(a[1..] + b);
          [a[0]] + (x + y);
          { assert [a[0]] + (x + y) == ([a[0]] + x) + y; }
          ([a[0]] + x) + y;
          WithoutInserts(a) + WithoutInserts(b);
        }
      }
    }
  }

  /** The same for the spans that are not deletions. */
  lemma {:induction false} WithoutDeletesAppend(a: seq<WordChange>, b: seq<WordChange>)
    ensures WithoutDeletes(a + b) == WithoutDeletes(a) + WithoutDeletes(b)
  {
    if a == [] {
      assert a + b == b;
    } else {
      var ab := a + b;
      assert ab[0] == a[0];
      assert ab[1..] == a[1..] + b;
      WithoutDeletesAppend(a[1..], b);
      if a[0].kind == WordDelete {
        calc {
          WithoutDeletes(ab);
          WithoutDeletes(a[1..] + b);
          WithoutDeletes(a[1..]) + WithoutDeletes(b);
          WithoutDeletes(a) + WithoutDeletes(b);
        }
      } else {
        var x, y := WithoutDeletes(a[1..]), WithoutDeletes(b);
        calc {
          WithoutDeletes(ab);
          [a[0]] + WithoutDeletes(a[1..] + b);
          [a[0]] + (x + y);
          { assert [a[0]] + (x + y) == ([a[0]] + x) + y; }
          ([a[0]] + x) + y;
          WithoutDeletes(a) + WithoutDeletes(b);
        }
      }
    }
  }

  lemma FiltersSingle(w: WordChange)
    ensures WithoutInserts([w]) == if w.kind == WordInsert then [] else [w]
    ensures WithoutDeletes([w]) == if w.kind == WordDelete then [] else [w]
  {
    assert [w][1..] == [];
  }

  /** The text of a list of spans, end to end. */
  function SpanText(ws: seq<WordChange>): string
  {
    if ws == [] then "" else ws[0].text + SpanText(ws[1..])
  }

  /** The old text a word diff describes: its equal and deleted spans. */
  function OldText(ws: seq<WordChange>): string
  {
    if ws == [] then ""
    else (if ws[0].kind == WordInsert then "" else ws[0].text) + OldText(ws[1..])
  }

  /** The new text a word diff describes: its equal and inserted spans. */
  function NewText(ws: seq<WordChange>): string
  {
    if ws == [] then ""
    else (if ws[0].kind == WordDelete then "" else ws[0].text) + NewText(ws[1..])
  }

  /** The differ describes its two inputs: the old text is spelt by the
      spans that are not insertions, the new text by those that are not
      deletions. */
  ghost predicate WordDiffCorrect(wordDiff: WordDiffer)
  {
    forall a, b :: OldText(wordDiff(a, b)) == a && NewText(wordDiff(a, b)) == b
  }

  /** The spans a deleted line keeps spell the old text, and those an added
      line keeps spell the new text. */
  lemma {:induction false} FilteredText(ws: seq<WordChange>)
    ensures SpanText(WithoutInserts(ws)) == OldText(ws)
    ensures SpanText(WithoutDeletes(ws)) == NewText(ws)
  {
    if ws != [] {
      FilteredText(ws[1..]);
      if ws[0].kind != WordInsert {
        assert WithoutInserts(ws) == [ws[0]] + WithoutInserts(ws[1..]);
      }
      if ws[0].kind != WordDelete {
        assert WithoutDeletes(ws) == [ws[0]] + WithoutDeletes(ws[1..]);
      }
    }
  }

  /** The end of the run of `kind` lines that begins at `i`. */
  function RunEnd(lines: seq<DiffLine>, i: nat, kind: LineType): (e: nat)
    requires i <= |lines|
    ensures i <= e <= |lines|
    ensures e == |lines| || lines[e].kind != kind
    ensures i < e ==> lines[i].kind == kind
    decreases |lines| - i
  {
    if i < |lines| && lines[i].kind == kind then RunEnd(lines, i + 1, kind) else i
  }

  /** Every line of a run has the run's kind. */
  lemma {:induction false} InRun(lines: seq<DiffLine>, i: nat, kind: LineType, k: nat)
    requires i <= |lines| && i <= k < RunEnd(lines, i, kind)
    ensures lines[k].kind == kind
    ensures RunEnd(lines, k, kind) == RunEnd(lines, i, kind)
    decreases k - i
  {
    if k > i {
      InRun(lines, i + 1, kind, k);
    }
  }

  /** The first line of the run of same-kind lines that holds line `k`. */
  function RunStart(lines: seq<DiffLine>, k: nat): (s: nat)
    requires k < |lines|
    ensures s <= k
    ensures lines[s].kind == lines[k].kind
    ensures s == 0 || lines[s - 1].kind != lines[k].kind
  {
    if k > 0 && lines[k - 1].kind == lines[k].kind then RunStart(lines, k - 1) else k
  }

  /** The line that line `k` is compared with, if any: a deleted line at
      offset j in its run is paired with the line at offset j of the run
      of added lines right after that run, and an added line at offset j
      with the line at offset j of the run of deleted lines right before
      its own run; a line whose opposite run is too short, or missing, and
      every context line have no partner. */
  function Partner(lines: seq<DiffLine>, k: nat): (r: Option<nat>)
    requires k < |lines|
    ensures r.Some? ==> r.value < |lines| && lines[k].kind != Context
  {
    match lines[k].kind
    case Delete =>
      var ds := RunStart(lines, k);
      var ad := RunEnd(lines, k, Delete);
      var ae := RunEnd(lines, ad, Add);
      if ad + (k - ds) < ae then Some(ad + (k - ds)) else None
    case Add =>
      var ad := RunStart(lines, k);
      if ad > 0 && lines[ad - 1].kind == Delete then
        var ds := RunStart(lines, ad - 1);
        if ds + (k - ad) < ad then Some(ds + (k - ad)) else None
      else None
    case Context => None
  }

  /** A deleted line compared with an added line keeps the spans that are
      not insertions. */
  function DeleteSpans(del: DiffLine, add: DiffLine, wordDiff: WordDiffer): DiffLine
  {
    del.(wordDiff := Some(WithoutInserts(wordDiff(del.content, add.content))))
  }

  /** An added line compared with a deleted line keeps the spans that are
      not deletions. */
  function AddSpans(del: DiffLine, add: DiffLine, wordDiff: WordDiffer): DiffLine
  {
    add.(wordDiff := Some(WithoutDeletes(wordDiff(del.content, add.content))))
  }

  /** Line `k` after the annotation: with the word spans of its comparison
      against its partner, when it has one, and unchanged otherwise. */
  function AnnotatedLine(lines: seq<DiffLine>, k: nat, wordDiff: WordDiffer): (r: DiffLine)
    requires k < |lines|
    ensures r == lines[k].(wordDiff := r.wordDiff)
    ensures Partner(lines, k).None? ==> r == lines[k]
    ensures Partner(lines, k).Some? && lines[k].kind == Delete ==>
      r.wordDiff.Some? && forall w :: w in r.wordDiff.value ==> w.kind != WordInsert
    ensures Partner(lines, k).Some? && lines[k].kind == Add ==>
      r.wordDiff.Some? && forall w :: w in r.wordDiff.value ==> w.kind != WordDelete
    ensures Partner(lines, k).Some? && lines[k].kind == Delete ==>
      r.wordDiff == Some(WithoutInserts(wordDiff(lines[k].content, lines[Partner(lines, k).value].content)))
    ensures Partner(lines, k).Some? && lines[k].kind == Add ==>
      r.wordDiff == Some(WithoutDeletes(wordDiff(lines[Partner(lines, k).value].content, lines[k].content)))
  {
    match Partner(lines, k)
    case None => lines[k]
    case Some(m) =>
      if lines[k].kind == Delete then DeleteSpans(lines[k], lines[m], wordDiff)
      else AddSpans(lines[m], lines[k], wordDiff)
  }

  /** With a correct differ, the spans a paired line gets spell that
      line's own content. */
  lemma {:induction false} AnnotatedSpansSpellContent(lines: seq<DiffLine>, k: nat, wordDiff: WordDiffer)
    requires k < |lines| && Partner(lines, k).Some? && WordDiffCorrect(wordDiff)
    ensures AnnotatedLine(lines, k, wordDiff).wordDiff.Some?
    ensures SpanText(AnnotatedLine(lines, k, wordDiff).wordDiff.value) == lines[k].content
  {
    var m := Partner(lines, k).value;
    if lines[k].kind == Delete {
      var ws := wordDiff(lines[k].content, lines[m].content);
      FilteredText(ws);
    } else {
      var ws := wordDiff(lines[m].content, lines[k].content);
      FilteredText(ws);
    }
  }

  /** Every line of a hunk after the annotation. */
  function Annotated(lines: seq<DiffLine>, wordDiff: WordDiffer): seq<DiffLine>
  {
    seq(|lines|, k requires 0 <= k < |lines| => AnnotatedLine(lines, k, wordDiff))
  }

  /** Where the scan may stand: not inside a run of deleted lines, and not
      on an added line that has a partner. */
  ghost predicate AtBlockBoundary(lines: seq<DiffLine>, i: nat)
  {
    i <= |lines| &&
    (i < |lines| && lines[i].kind == Delete ==> i == 0 || lines[i - 1].kind != Delete) &&
    (i < |lines| && lines[i].kind == Add ==> Partner(lines, i).None?)
  }

  /** Every line of a run that starts right after a line of another kind
      (or at the top) has that run's first line as its run start. */
  lemma {:induction false} RunStartIn(lines: seq<DiffLine>, s: nat, kind: LineType, k: nat)
    requires s <= k < |lines| && k < RunEnd(lines, s, kind)
    requires s == 0 || lines[s - 1].kind != kind
    ensures RunStart(lines, k) == s
    decreases k - s
  {
    InRun(lines, s, kind, k);
    if k > s {
      InRun(lines, s, kind, k - 1);
      RunStartIn(lines, s, kind, k - 1);
    }
  }

  /** The deleted lines of the block made of the run of deleted lines
      `[ds, ad)` and the run of added lines `[ad, ae)` after it: the line
      at offset j has the added line at offset j as partner exactly when
      the run of added lines is longer than j. */
  lemma {:induction false} DeletePartner(lines: seq<DiffLine>, ds: nat, ad: nat, ae: nat, k: nat)
    requires ds < |lines| && (ds == 0 || lines[ds - 1].kind != Delete)
    requires ad == RunEnd(lines, ds, Delete) && ae == RunEnd(lines, ad, Add)
    requires ds <= k < ad
    ensures lines[k].kind == Delete
    ensures Partner(lines, k) == if ad + (k - ds) < ae then Some(ad + (k - ds)) else None
  {
    InRun(lines, ds, Delete, k);
    RunStartIn(lines, ds, Delete, k);
  }

  /** The added lines of the same block: the line at offset j has the
      deleted line at offset j as partner exactly when the run of deleted
      lines is longer than j. */
  lemma {:induction false} AddPartner(lines: seq<DiffLine>, ds: nat, ad: nat, ae: nat, k: nat)
    requires ds < |lines| && lines[ds].kind == Delete && (ds == 0 || lines[ds - 1].kind != Delete)
    requires ad == RunEnd(lines, ds, Delete) && ae == RunEnd(lines, ad, Add)
    requires ad <= k < ae
    ensures lines[k].kind == Add
    ensures Partner(lines, k) == if ds + (k - ad) < ad then Some(ds + (k - ad)) else None
  {
    InRun(lines, ad, Add, k);
    InRun(lines, ds, Delete, ad - 1);
    RunStartIn(lines, ad, Add, k);
    RunStartIn(lines, ds, Delete, ad - 1);
  }

  /** The run start of a line, and the run from there, reach that line. */
  lemma {:induction false} RunReaches(lines: seq<DiffLine>, k: nat)
    requires k < |lines|
    ensures k < RunEnd(lines, RunStart(lines, k), lines[k].kind)
  {
    var s := RunStart(lines, k);
    if s < k {
      RunReaches(lines, k - 1);
      InRun(lines, s, lines[k].kind, k - 1);
    }
  }

  /** A deleted line's partner is an added line whose partner it is. */
  lemma {:induction false} DeleteSymmetric(lines: seq<DiffLine>, k: nat)
    requires k < |lines| && lines[k].kind == Delete && Partner(lines, k).Some?
    ensures var m := Partner(lines, k).value; lines[m].kind == Add && Partner(lines, m) == Some(k)
  {
    var ds := RunStart(lines, k);
    RunReaches(lines, k);
    InRun(lines, ds, Delete, k);
    var ad := RunEnd(lines, ds, Delete);
    var ae := RunEnd(lines, ad, Add);
    DeletePartner(lines, ds, ad, ae, k);
    AddPartner(lines, ds, ad, ae, ad + (k - ds));
  }

  /** An added line's partner is a deleted line whose partner it is. */
  lemma {:induction false} AddSymmetric(lines: seq<DiffLine>, k: nat)
    requires k < |lines| && lines[k].kind == Add && Partner(lines, k).Some?
    ensures var m := Partner(lines, k).value; lines[m].kind == Delete && Partner(lines, m) == Some(k)
  {
    var a0 := RunStart(lines, k);
    var ds := RunStart(lines, a0 - 1);
    BlockBefore(lines, a0);
    RunReaches(lines, k);
    var ae := RunEnd(lines, a0, Add);
    AddPartner(lines, ds, a0, ae, k);
    DeletePartner(lines, ds, a0, ae, ds + (k - a0));
  }

  /** A run of deleted lines that ends right before line `a0` starts a
      block whose run of deleted lines ends at `a0`. */
  lemma {:induction false} BlockBefore(lines: seq<DiffLine>, a0: nat)
    requires 0 < a0 < |lines| && lines[a0 - 1].kind == Delete && lines[a0].kind != Delete
    ensures var ds := RunStart(lines, a0 - 1);
      lines[ds].kind == Delete && (ds == 0 || lines[ds - 1].kind != Delete) &&
      RunEnd(lines, ds, Delete) == a0
  {
    var ds := RunStart(lines, a0 - 1);
    RunReaches(lines, a0 - 1);
    InRun(lines, ds, Delete, a0 - 1);
    assert RunEnd(lines, a0 - 1, Delete) == a0;
  }

  /** The pairing is a matching between deleted and added lines: a line's
      partner has the opposite kind and has that line as its partner. */
  lemma {:induction false} PartnerSymmetric(lines: seq<DiffLine>, k: nat)
    requires k < |lines| && Partner(lines, k).Some?
    ensures var m := Partner(lines, k).value;
      (lines[k].kind == Delete ==> lines[m].kind == Add) &&
      (lines[k].kind == Add ==> lines[m].kind == Delete) &&
      Partner(lines, m) == Some(k)
  {
    if lines[k].kind == Delete {
      DeleteSymmetric(lines, k);
    } else {
      AddSymmetric(lines, k);
    }
  }

  /** Stepping over a line that is not deleted keeps the scan at a block
      boundary, and that line is left as it is. */
  lemma {:induction false} StepOver(lines: seq<DiffLine>, i: nat, wordDiff: WordDiffer)
    requires AtBlockBoundary(lines, i) && i < |lines| && lines[i].kind != Delete
    ensures AtBlockBoundary(lines, i + 1)
    ensures AnnotatedLine(lines, i, wordDiff) == lines[i]
  {
    if i + 1 < |lines| && lines[i + 1].kind == Add && lines[i].kind == Add {
      assert RunStart(lines, i + 1) == RunStart(lines, i);
    }
  }

  /** After a block the scan is at a block boundary again. */
  lemma {:induction false} AfterBlock(lines: seq<DiffLine>, ds: nat)
    requires ds < |lines| && lines[ds].kind == Delete
    ensures AtBlockBoundary(lines, RunEnd(lines, RunEnd(lines, ds, Delete), Add))
  {
    var ad := RunEnd(lines, ds, Delete);
    var ae := RunEnd(lines, ad, Add);
    if ae < |lines| && lines[ae].kind == Delete {
      assert ae > ad;
      InRun(lines, ad, Add, ae - 1);
    }
  }

  /** Line `k` once the first `j` comparisons of the block whose run of
      deleted lines starts at `ds` and whose run of added lines starts at
      `ad` are made. */
  function Staged(lines: seq<DiffLine>, ds: nat, ad: nat, j: nat, k: nat, wordDiff: WordDiffer): DiffLine
    requires k < |lines| && ds + j <= ad && ad + j <= |lines|
  {
    if ds <= k < ds + j then DeleteSpans(lines[k], lines[k - ds + ad], wordDiff)
    else if ad <= k < ad + j then AddSpans(lines[k - ad + ds], lines[k], wordDiff)
    else lines[k]
  }

  /** The number of comparisons in a block: the length of the shorter
      of its two runs. */
  function PairCount(ds: nat, ad: nat, ae: nat): nat
    requires ds <= ad <= ae
  {
    if ad - ds < ae - ad then ad - ds else ae - ad
  }

  /** What a block's lines become: the deleted line and the added line
      at the same offset `j < pairCount` are compared, and every other
      line of the block is left alone. */
  lemma {:induction false} BlockAnnotated(lines: seq<DiffLine>, ds: nat, ad: nat, ae: nat, k: nat, wordDiff: WordDiffer)
    requires ds < |lines| && lines[ds].kind == Delete && (ds == 0 || lines[ds - 1].kind != Delete)
    requires ad == RunEnd(lines, ds, Delete) && ae == RunEnd(lines, ad, Add)
    requires ds <= k < ae
    ensures AnnotatedLine(lines, k, wordDiff) == Staged(lines, ds, ad, PairCount(ds, ad, ae), k, wordDiff)
  {
    if k < ad {
      DeletePartner(lines, ds, ad, ae, k);
    } else {
      AddPartner(lines, ds, ad, ae, k);
    }
  }

  /** A block whose comparisons are all made holds its annotated lines. */
  lemma {:induction false} BlockDone(cur: seq<DiffLine>, lines: seq<DiffLine>, ds: nat, ad: nat, ae: nat, wordDiff: WordDiffer)
    requires ds < |lines| && lines[ds].kind == Delete && (ds == 0 || lines[ds - 1].kind != Delete)
    requires ad == RunEnd(lines, ds, Delete) && ae == RunEnd(lines, ad, Add)
    requires |cur| == |lines|
    requires forall k :: ds <= k < ae ==> cur[k] == Staged(lines, ds, ad, PairCount(ds, ad, ae), k, wordDiff)
    ensures forall k {:trigger AnnotatedLine(lines, k, wordDiff)} :: ds <= k < ae ==> cur[k] == AnnotatedLine(lines, k, wordDiff)
  {
    forall k | ds <= k < ae
      ensures cur[k] == AnnotatedLine(lines, k, wordDiff)
    {
      BlockAnnotated(lines, ds, ad, ae, k, wordDiff);
    }
  }

  /** The comparisons of one block, as the source's inner `for` loop makes
      them: deleted line `ds + j` and added line `ad + j` for every
      `j < pairCount`. Only those lines change. */
  method PairBlock(cur: seq<DiffLine>, ghost lines: seq<DiffLine>, ds: nat, ad: nat, ae: nat, wordDiff: WordDiffer)
    returns (cur': seq<DiffLine>)
    requires ds <= ad <= ae <= |cur| == |lines|
    requires forall k :: ds <= k < |cur| ==> cur[k] == lines[k]
    ensures |cur'| == |cur|
    ensures forall k :: 0 <= k < ds ==> cur'[k] == cur[k]
    ensures forall k :: ds <= k < |cur| ==> cur'[k] == Staged(lines, ds, ad, PairCount(ds, ad, ae), k, wordDiff)
  {
    var deleteLines := cur[ds..ad];
    var addLines := cur[ad..ae];
    var pairCount := if |deleteLines| < |addLines| then |deleteLines| else |addLines|;
    cur' := cur;
    for j := 0 to pairCount
      invariant |cur'| == |cur|
      invariant forall k :: 0 <= k < ds ==> cur'[k] == cur[k]
      invariant forall k :: ds <= k < |cur| ==> cur'[k] == Staged(lines, ds, ad, j, k, wordDiff)
    {
      var wd := wordDiff(deleteLines[j].content, addLines[j].content);
      cur' := cur'[ds + j := deleteLines[j].(wordDiff := Some(WithoutInserts(wd)))];
      cur' := cur'[ad + j := addLines[j].(wordDiff := Some(WithoutDeletes(wd)))];
    }
  }

  /** How far the scan over a hunk's lines has got: the lines before
      `i` are annotated, the others are as they were, and `i` is at a
      block boundary. */
  ghost predicate Scanned(cur: seq<DiffLine>, lines: seq<DiffLine>, i: nat, wordDiff: WordDiffer)
  {
    |cur| == |lines| && AtBlockBoundary(lines, i) &&
    (forall k {:trigger AnnotatedLine(lines, k, wordDiff)} :: 0 <= k < i ==> cur[k] == AnnotatedLine(lines, k, wordDiff)) &&
    (forall k :: i <= k < |lines| ==> cur[k] == lines[k])
  }

  /** Stepping over a line that does not start a block. */
  lemma {:induction false} ScanOver(cur: seq<DiffLine>, lines: seq<DiffLine>, i: nat, wordDiff: WordDiffer)
    requires Scanned(cur, lines, i, wordDiff) && i < |cur| && cur[i].kind != Delete
    ensures Scanned(cur, lines, i + 1, wordDiff)
  {
    StepOver(lines, i, wordDiff);
  }

  /** A finished scan holds the annotated lines. */
  lemma {:induction false} ScanDone(cur: seq<DiffLine>, lines: seq<DiffLine>, wordDiff: WordDiffer)
    requires Scanned(cur, lines, |lines|, wordDiff)
    ensures cur == Annotated(lines, wordDiff)
  {
    forall k | 0 <= k < |lines|
      ensures cur[k] == Annotated(lines, wordDiff)[k]
    {
      assert cur[k] == AnnotatedLine(lines, k, wordDiff);
    }
  }

  /** One block of the scan: the run of deleted lines at `i` is collected,
      then the run of added lines after it, and the two are paired. */
  method ScanBlock(cur: seq<DiffLine>, ghost lines: seq<DiffLine>, i: nat, wordDiff: WordDiffer)
    returns (cur': seq<DiffLine>, i': nat)
    requires Scanned(cur, lines, i, wordDiff) && i < |cur| && cur[i].kind == Delete
    ensures Scanned(cur', lines, i', wordDiff) && i < i'
  {
    var ds := i;
    i' := i;
    while i' < |cur| && cur[i'].kind == Delete
      invariant ds <= i' <= |lines|
      invariant RunEnd(lines, i', Delete) == RunEnd(lines, ds, Delete)
      decreases |lines| - i'
    {
      i' := i' + 1;
    }
    var ad := i';
    while i' < |cur| && cur[i'].kind == Add
      invariant ad <= i' <= |lines|
      invariant RunEnd(lines, i', Add) == RunEnd(lines, ad, Add)
      decreases |lines| - i'
    {
      i' := i' + 1;
    }
    AfterBlock(lines, ds);
    cur' := PairBlock(cur, lines, ds, ad, i', wordDiff);
    BlockDone(cur', lines, ds, ad, i', wordDiff);
  }

  /** The annotation of one hunk's lines, with the source's scan: a
      deleted line starts a block, whose run of deleted lines and run of
      added lines are collected and then paired; any other line is
      stepped over. */
  method AnnotateLines(lines: seq<DiffLine>, wordDiff: WordDiffer) returns (cur: seq<DiffLine>)
    ensures cur == Annotated(lines, wordDiff)
  {
    cur := lines;
    var i: nat := 0;
    while i < |cur|
      invariant Scanned(cur, lines, i, wordDiff)
      decreases |lines| - i
    {
      if cur[i].kind == Delete {
        cur, i := ScanBlock(cur, lines, i, wordDiff);
      } else {
        ScanOver(cur, lines, i, wordDiff);
        i := i + 1;
      }
    }
    ScanDone(cur, lines, wordDiff);
  }

  /** The annotation of every hunk: each hunk keeps its header and gets
      its lines annotated. */
  method AddWordDiffToHunks(hunks: seq<DiffHunk>, wordDiff: WordDiffer) returns (r: seq<DiffHunk>)
    ensures |r| == |hunks|
    ensures forall h :: 0 <= h < |hunks| ==>
      r[h] == hunks[h].(lines := Annotated(hunks[h].lines, wordDiff))
  {
    r := [];
    for h := 0 to |hunks|
      invariant |r| == h
      invariant forall g :: 0 <= g < h ==> r[g] == hunks[g].(lines := Annotated(hunks[g].lines, wordDiff))
    {
      var lines := AnnotateLines(hunks[h].lines, wordDiff);
      r := r + [hunks[h].(lines := lines)];
    }
  }
}
