/** Grouping a line-level diff into hunks: the loop of `computeHunks`,
    `finishHunk` and `updateHunkCounts` (src/lib/server/diff/engine.ts).
    Hunks are values here; the loop rebuilds them instead of pushing into
    shared arrays. */
module Hunks {
  import opened Types
  import opened LineDiffs

  /** CONTEXT_LINES. */
  const ContextLines: int := 3

  function Max(a: int, b: int): int
  {
    if a < b then b else a
  }

  function Min(a: int, b: int): int
  {
    if a < b then a else b
  }

  predicate IsChange(L: seq<LineDiff>, j: int)
    requires 0 <= j < |L|
  {
    L[j].kind != LEqual
  }

  /** The lines of the old file consumed before index `k`. */
  function OldSeen(L: seq<LineDiff>, k: nat): nat
    requires k <= |L|
  {
    if k == 0 then 0 else OldSeen(L, k - 1) + (if L[k - 1].kind == LAdd then 0 else 1)
  }

  /** The lines of the new file consumed before index `k`. */
  function NewSeen(L: seq<LineDiff>, k: nat): nat
    requires k <= |L|
  {
    if k == 0 then 0 else NewSeen(L, k - 1) + (if L[k - 1].kind == LDelete then 0 else 1)
  }

  /** The line the hunker emits for `L[k]`, numbered by the two counters:
      context lines carry both numbers, deletions only the old one,
      additions only the new one. */
  function NumberedLine(L: seq<LineDiff>, k: nat): DiffLine
    requires k < |L|
  {
    match L[k].kind
    case LEqual => DiffLine(Context, Some(1 + OldSeen(L, k)), Some(1 + NewSeen(L, k)), L[k].line, None)
    case LDelete => DiffLine(Delete, Some(1 + OldSeen(L, k)), None, L[k].line, None)
    case LAdd => DiffLine(Add, None, Some(1 + NewSeen(L, k)), L[k].line, None)
  }

  /** The numbered lines of `L[s..e]`. */
  function Window(L: seq<LineDiff>, s: nat, e: nat): (r: seq<DiffLine>)
    requires s <= e <= |L|
    ensures |r| == e - s
    decreases e
  {
    if e == s then [] else Window(L, s, e - 1) + [NumberedLine(L, e - 1)]
  }

  /** The `i`-th line of a window is the numbered line `s + i`. */
  lemma {:induction false} WindowAt(L: seq<LineDiff>, s: nat, e: nat, i: nat)
    requires s <= e <= |L| && i < e - s
    ensures Window(L, s, e)[i] == NumberedLine(L, s + i)
    decreases e
  {
    if i < e - 1 - s {
      WindowAt(L, s, e - 1, i);
    }
  }

  /** The lines a hunk header counts on the old side: all but additions. */
  function CountOld(lines: seq<DiffLine>): nat
  {
    if lines == [] then 0
    else CountOld(lines[..|lines| - 1]) + (if lines[|lines| - 1].kind == Add then 0 else 1)
  }

  /** The lines a hunk header counts on the new side: all but deletions. */
  function CountNew(lines: seq<DiffLine>): nat
  {
    if lines == [] then 0
    else CountNew(lines[..|lines| - 1]) + (if lines[|lines| - 1].kind == Delete then 0 else 1)
  }

  /** `updateHunkCounts`. */
  function UpdateHunkCounts(h: DiffHunk): DiffHunk
  {
    h.(oldCount := CountOld(h.lines), newCount := CountNew(h.lines))
  }

  /** `lines.some(l => l.type !== 'context')`. */
  predicate HasChangeLine(lines: seq<DiffLine>)
  {
    exists j :: 0 <= j < |lines| && lines[j].kind != Context
  }

  /** The hunk made of the numbered lines `L[s..e]`. */
  function HunkOf(L: seq<LineDiff>, s: nat, e: nat): DiffHunk
    requires s <= e <= |L|
  {
    UpdateHunkCounts(DiffHunk(1 + OldSeen(L, s), 0, 1 + NewSeen(L, s), 0, Window(L, s, e)))
  }

  /** What a hunk promises its reader: a change in it, counts that match
      its lines, and line numbers that run consecutively from the starts,
      typed by the kind of line. */
  ghost predicate WellFormed(h: DiffHunk)
  {
    HasChangeLine(h.lines) &&
    h.oldStart >= 1 && h.newStart >= 1 &&
    h.oldCount == CountOld(h.lines) && h.newCount == CountNew(h.lines) &&
    NumberedFrom(h.lines, h.oldStart, h.newStart)
  }

  /** Each line carries the numbers of the lines counted before it, from
      the given starts; additions have no old number, deletions no new
      one. */
  ghost predicate NumberedFrom(lines: seq<DiffLine>, oldStart: int, newStart: int)
  {
    forall j :: 0 <= j < |lines| ==>
      (lines[j].oldNumber == if lines[j].kind == Add then None else Some(oldStart + CountOld(lines[..j]))) &&
      (lines[j].newNumber == if lines[j].kind == Delete then None else Some(newStart + CountNew(lines[..j])))
  }

  // ----- The layout of the hunks over the line diff -----

  /** Where one hunk sits: its first line, first change, last change and
      end (exclusive), as indices into the line diff. */
  datatype Span = Span(start: nat, first: nat, last: nat, end: nat)

  ghost predicate AllEqual(L: seq<LineDiff>, a: int, b: int)
    requires 0 <= a && b <= |L|
  {
    forall j :: a <= j < b ==> !IsChange(L, j)
  }

  predicate FourEqual(L: seq<LineDiff>, j: nat)
    requires j + 4 <= |L|
  {
    !IsChange(L, j) && !IsChange(L, j + 1) && !IsChange(L, j + 2) && !IsChange(L, j + 3)
  }

  /** No four consecutive equal lines lie before index `c`, from `a` on. */
  ghost predicate ShortGaps(L: seq<LineDiff>, a: nat, c: nat)
    requires c <= |L|
  {
    forall j :: a <= j && j + 4 <= c ==> !FourEqual(L, j)
  }

  /** A hunk whose changes have been seen up to index `end`, after the
      boundary `b` (0, or one past the line that closed the previous hunk):
      nothing changes between `b` and its first change, it leads with the
      up to three equal lines before that change, its changes are never
      four equal lines apart, and at most three equal lines follow its last
      change. */
  ghost predicate OpenSpan(L: seq<LineDiff>, b: int, r: Span)
  {
    0 <= b <= r.start <= r.first <= r.last < r.end <= |L| &&
    AllEqual(L, b, r.first) &&
    r.first - r.start <= ContextLines && (r.start == b || r.first - r.start == ContextLines) &&
    IsChange(L, r.first) && IsChange(L, r.last) &&
    ShortGaps(L, r.first, r.last) &&
    AllEqual(L, r.last + 1, r.end) &&
    r.end - (r.last + 1) <= ContextLines
  }

  /** A finished hunk: it ends with the input, or with exactly three
      trailing equal lines followed by a fourth that closed it. */
  ghost predicate SpanOk(L: seq<LineDiff>, b: int, r: Span)
  {
    OpenSpan(L, b, r) &&
    (r.end == |L| || (r.end == r.last + 1 + ContextLines && !IsChange(L, r.end)))
  }

  /** Where the `i`-th hunk may start at the earliest. */
  function Boundary(spans: seq<Span>, i: nat): int
    requires i <= |spans|
  {
    if i == 0 then 0 else spans[i - 1].end + 1
  }

  /** The hunks, in order, each one the numbered window of its span, the
      spans laid out as above, and no change after the last one. */
  ghost predicate Layout(L: seq<LineDiff>, hunks: seq<DiffHunk>, spans: seq<Span>)
  {
    ClosedSpans(L, hunks, spans) &&
    Boundary(spans, |spans|) <= |L| + 1 &&
    AllEqual(L, Min(Boundary(spans, |spans|), |L|), |L|)
  }

  // ----- finishHunk -----

  /** The number of context lines at the end of `lines`. */
  function TrailingContext(lines: seq<DiffLine>): (n: nat)
    ensures n <= |lines|
  {
    if lines == [] || lines[|lines| - 1].kind != Context then 0
    else 1 + TrailingContext(lines[..|lines| - 1])
  }

  /** The lines `finishHunk` keeps: as many trailing context lines go as
      the buffer holds more than three, but never a change line. */
  function TrimmedLines(lines: seq<DiffLine>, buffered: int): seq<DiffLine>
  {
    lines[..|lines| - Min(TrailingContext(lines), Max(buffered - ContextLines, 0))]
  }

  /** What `finishHunk` appends: the trimmed and recounted hunk, if a
      change is left in it. */
  function Finished(hunk: DiffHunk, buffered: int): seq<DiffHunk>
  {
    var h := UpdateHunkCounts(hunk.(lines := TrimmedLines(hunk.lines, buffered)));
    if HasChangeLine(h.lines) then [h] else []
  }

  /** `finishHunk`: trims trailing context, recounts, and keeps the hunk
      only if a change is left in it. */
  method FinishHunk(hunks: seq<DiffHunk>, hunk: DiffHunk, buffered: int) returns (hunks': seq<DiffHunk>)
    ensures hunks' == hunks + Finished(hunk, buffered)
  {
    var lines := hunk.lines;
    var bufferLength := buffered;
    while |lines| > 0 && bufferLength > ContextLines
      invariant lines == hunk.lines[..|lines|]
      invariant |hunk.lines| - |lines| == buffered - bufferLength
      invariant TrailingContext(hunk.lines) == (|hunk.lines| - |lines|) + TrailingContext(lines)
      invariant bufferLength >= Min(buffered, ContextLines)
      decreases |lines|
    {
      var lastLine := lines[|lines| - 1];
      if lastLine.kind == Context {
        lines := lines[..|lines| - 1];
        bufferLength := bufferLength - 1;
      } else {
        break;
      }
    }
    assert lines == TrimmedLines(hunk.lines, buffered);
    var h := UpdateHunkCounts(hunk.(lines := lines));
    if exists j :: 0 <= j < |h.lines| && h.lines[j].kind != Context {
      hunks' := hunks + [h];
    } else {
      hunks' := hunks;
    }
  }

  /** Trimming removes only context lines from the end, and none when the
      buffer holds three lines or fewer; so a change is never lost. */
  lemma {:induction false} TrimmedLinesDropsContextOnly(lines: seq<DiffLine>, buffered: int)
    ensures var t := TrimmedLines(lines, buffered);
      t <= lines &&
      (forall j :: |t| <= j < |lines| ==> lines[j].kind == Context) &&
      (buffered <= ContextLines ==> t == lines) &&
      (HasChangeLine(lines) <==> HasChangeLine(t))
  {
    var t := TrimmedLines(lines, buffered);
    TrailingContextAreContext(lines);
    if HasChangeLine(lines) {
      var j :| 0 <= j < |lines| && lines[j].kind != Context;
      assert j < |t|;
      assert t[j] == lines[j];
    }
  }

  lemma {:induction false} TrailingContextAreContext(lines: seq<DiffLine>)
    ensures forall j :: |lines| - TrailingContext(lines) <= j < |lines| ==> lines[j].kind == Context
  {
    if lines != [] && lines[|lines| - 1].kind == Context {
      var init := lines[..|lines| - 1];
      TrailingContextAreContext(init);
      assert forall j :: 0 <= j < |init| ==> init[j] == lines[j];
    }
  }

  // ----- The loop of computeHunks -----

  lemma {:induction false} WindowSnoc(L: seq<LineDiff>, s: nat, e: nat)
    requires s <= e < |L|
    ensures Window(L, s, e + 1) == Window(L, s, e) + [NumberedLine(L, e)]
  {
  }

  lemma {:induction false} WindowDropFirst(L: seq<LineDiff>, s: nat, e: nat)
    requires s < e <= |L|
    ensures Window(L, s, e)[1..] == Window(L, s + 1, e)
    decreases e
  {
    if e > s + 1 {
      WindowDropFirst(L, s, e - 1);
      assert Window(L, s, e)[1..] == Window(L, s, e - 1)[1..] + [NumberedLine(L, e - 1)];
    }
  }

  /** Over a run of equal lines both counters advance once per line. */
  lemma {:induction false} SeenOverEqualRun(L: seq<LineDiff>, a: nat, c: nat)
    requires a <= c <= |L|
    requires AllEqual(L, a, c)
    ensures OldSeen(L, c) == OldSeen(L, a) + (c - a)
    ensures NewSeen(L, c) == NewSeen(L, a) + (c - a)
  {
    if c > a {
      SeenOverEqualRun(L, a, c - 1);
      assert !IsChange(L, c - 1);
    }
  }

  /** The `i`-th span. It names the terms on which the quantifier of
      `ClosedSpans` fires, so that the facts about each finished hunk come
      into play only where a proof asks for them. */
  function SpanAt(spans: seq<Span>, i: nat): Span
    requires i < |spans|
  {
    spans[i]
  }

  /** The finished hunks so far, each the numbered window of its span,
      the spans laid out one after the other. */
  ghost predicate ClosedSpans(L: seq<LineDiff>, hunks: seq<DiffHunk>, spans: seq<Span>)
  {
    |hunks| == |spans| &&
    forall i {:trigger SpanAt(spans, i)} :: 0 <= i < |spans| ==>
      SpanOk(L, Boundary(spans, i), SpanAt(spans, i)) &&
      hunks[i] == HunkOf(L, SpanAt(spans, i).start, SpanAt(spans, i).end)
  }

  lemma {:induction false} ClosedSpansAppend(L: seq<LineDiff>, hunks: seq<DiffHunk>, spans: seq<Span>, r: Span)
    requires ClosedSpans(L, hunks, spans)
    requires SpanOk(L, Boundary(spans, |spans|), r)
    ensures ClosedSpans(L, hunks + [HunkOf(L, r.start, r.end)], spans + [r])
    ensures Boundary(spans + [r], |spans| + 1) == r.end + 1
  {
    var spans' := spans + [r];
    var hunks' := hunks + [HunkOf(L, r.start, r.end)];
    forall i | 0 <= i < |spans'|
      ensures SpanOk(L, Boundary(spans', i), SpanAt(spans', i)) &&
        hunks'[i] == HunkOf(L, SpanAt(spans', i).start, SpanAt(spans', i).end)
    {
      if i < |spans| {
        ClosedSpansAt(L, hunks, spans, i);
        SpanOkAt(L, spans, i, spans');
        assert hunks'[i] == hunks[i];
      } else {
        assert SpanAt(spans', i) == r;
        if i > 0 {
          assert spans'[i - 1] == spans[i - 1];
        }
      }
    }
  }

  /** Each finished hunk is the window of its span, and each span is laid
      out after the one before it. */
  lemma {:induction false} ClosedSpansAt(L: seq<LineDiff>, hunks: seq<DiffHunk>, spans: seq<Span>, i: nat)
    requires ClosedSpans(L, hunks, spans) && i < |spans|
    ensures SpanOk(L, Boundary(spans, i), spans[i]) && hunks[i] == HunkOf(L, spans[i].start, spans[i].end)
  {
    assert SpanAt(spans, i) == spans[i];
  }

  lemma {:induction false} SpanOkAt(L: seq<LineDiff>, spans: seq<Span>, i: nat, spans': seq<Span>)
    requires i < |spans| <= |spans'| && spans'[..|spans|] == spans
    requires SpanOk(L, Boundary(spans, i), spans[i])
    ensures SpanOk(L, Boundary(spans', i), SpanAt(spans', i))
  {
    assert spans'[i] == spans[i];
    if i > 0 {
      assert spans'[i - 1] == spans[i - 1];
    }
  }

  /** An equal line while no hunk is open: it joins the buffer, which
      keeps the last three lines. */
  lemma {:induction false} StepClosedEqual(L: seq<LineDiff>, b: nat, k: nat)
    requires b <= k < |L| && AllEqual(L, b, k) && !IsChange(L, k)
    ensures AllEqual(L, b, k + 1)
    ensures var buffer := Window(L, Max(b, k - ContextLines), k) + [NumberedLine(L, k)];
      (if |buffer| > ContextLines then buffer[1..] else buffer) == Window(L, Max(b, k + 1 - ContextLines), k + 1)
  {
    WindowSnoc(L, Max(b, k - ContextLines), k);
    if k + 1 - Max(b, k - ContextLines) > ContextLines {
      WindowDropFirst(L, Max(b, k - ContextLines), k + 1);
    }
  }

  /** A change while no hunk is open: a hunk opens with the buffered lines. */
  lemma {:induction false} StepClosedChange(L: seq<LineDiff>, b: nat, k: nat)
    requires b <= k < |L| && AllEqual(L, b, k) && IsChange(L, k)
    ensures OpenSpan(L, b, Span(Max(b, k - ContextLines), k, k, k + 1))
  {
  }

  /** An equal line while a hunk is open and fewer than four equal lines
      follow its last change: the hunk grows. */
  lemma {:induction false} StepOpenEqual(L: seq<LineDiff>, b: nat, r: Span)
    requires OpenSpan(L, b, r) && r.end < |L| && !IsChange(L, r.end)
    requires r.end + 1 - (r.last + 1) <= ContextLines
    ensures OpenSpan(L, b, r.(end := r.end + 1))
  {
  }

  /** The fourth equal line after the last change closes the hunk. */
  lemma {:induction false} StepOpenClose(L: seq<LineDiff>, b: nat, r: Span)
    requires OpenSpan(L, b, r) && r.end < |L| && !IsChange(L, r.end)
    requires r.end + 1 - (r.last + 1) > ContextLines
    ensures SpanOk(L, b, r)
  {
  }

  /** A change while a hunk is open: it becomes the hunk's last change. */
  lemma {:induction false} StepOpenChange(L: seq<LineDiff>, b: nat, r: Span)
    requires OpenSpan(L, b, r) && r.end < |L| && IsChange(L, r.end)
    ensures OpenSpan(L, b, Span(r.start, r.first, r.end, r.end + 1))
  {
    var k := r.end;
    forall j | r.first <= j && j + 4 <= k
      ensures !FourEqual(L, j)
    {
      if j + 4 > r.last && j <= r.last {
        assert r.last - j < 4 && IsChange(L, r.last);
      }
    }
  }

  /** The variables of the hunking loop of `computeHunks`. */
  datatype Hunker = Hunker(
    oldLineNum: int,
    newLineNum: int,
    hunks: seq<DiffHunk>,
    currentHunk: Option<DiffHunk>,
    contextBuffer: seq<DiffLine>)

  /** Where the loop stands: the finished spans, and the first line, first
      change and last change of the open hunk. */
  datatype Track = Track(spans: seq<Span>, start: nat, first: nat, last: nat)

  /** The loop invariant after `k` lines: the counters have consumed
      `L[..k]`, the finished hunks are laid out by their spans, and either
      no hunk is open and the buffer holds the last (up to three) equal
      lines, or a hunk is open, holds the numbered lines from its start,
      and the buffer holds the equal lines after its last change. */
  ghost predicate Scanned(L: seq<LineDiff>, k: nat, st: Hunker, g: Track)
  {
    k <= |L| &&
    st.oldLineNum == 1 + OldSeen(L, k) && st.newLineNum == 1 + NewSeen(L, k) &&
    ClosedSpans(L, st.hunks, g.spans) &&
    Boundary(g.spans, |g.spans|) <= k &&
    (st.currentHunk.None? ==>
      AllEqual(L, Boundary(g.spans, |g.spans|), k) &&
      st.contextBuffer == Window(L, Max(Boundary(g.spans, |g.spans|), k - ContextLines), k)) &&
    (st.currentHunk.Some? ==>
      OpenSpan(L, Boundary(g.spans, |g.spans|), Span(g.start, g.first, g.last, k)) &&
      st.currentHunk.value == DiffHunk(1 + OldSeen(L, g.start), 0, 1 + NewSeen(L, g.start), 0, Window(L, g.start, k)) &&
      st.contextBuffer == Window(L, g.last + 1, k))
  }

  /** The loop body for an equal line. */
  method EqualLine(L: seq<LineDiff>, k: nat, st: Hunker, ghost g: Track) returns (st': Hunker, ghost g': Track)
    requires k < |L| && !IsChange(L, k) && Scanned(L, k, st, g)
    ensures Scanned(L, k + 1, st', g')
  {
    var diffLine := DiffLine(Context, Some(st.oldLineNum), Some(st.newLineNum), L[k].line, None);
    assert diffLine == NumberedLine(L, k);
    st' := st.(oldLineNum := st.oldLineNum + 1, newLineNum := st.newLineNum + 1);
    g' := g;
    if st.currentHunk.Some? {
      var hunk := st.currentHunk.value.(lines := st.currentHunk.value.lines + [diffLine]);
      var contextBuffer := st.contextBuffer + [diffLine];
      if |contextBuffer| > ContextLines {
        st', g' := CloseHunk(L, k, st', g, hunk, contextBuffer);
      } else {
        StepOpenEqual(L, Boundary(g.spans, |g.spans|), Span(g.start, g.first, g.last, k));
        WindowSnoc(L, g.start, k);
        WindowSnoc(L, g.last + 1, k);
        st' := st'.(currentHunk := Some(hunk), contextBuffer := contextBuffer);
      }
    } else {
      StepClosedEqual(L, Boundary(g.spans, |g.spans|), k);
      var contextBuffer := st.contextBuffer + [diffLine];
      if |contextBuffer| > ContextLines {
        contextBuffer := contextBuffer[1..];
      }
      st' := st'.(contextBuffer := contextBuffer);
    }
  }

  /** The fourth equal line after the last change: `finishHunk`, and no
      hunk is open any more. */
  method CloseHunk(L: seq<LineDiff>, k: nat, st: Hunker, ghost g: Track, hunk: DiffHunk, contextBuffer: seq<DiffLine>)
    returns (st': Hunker, ghost g': Track)
    requires k < |L| && !IsChange(L, k)
    requires st.oldLineNum == 1 + OldSeen(L, k + 1) && st.newLineNum == 1 + NewSeen(L, k + 1)
    requires ClosedSpans(L, st.hunks, g.spans)
    requires OpenSpan(L, Boundary(g.spans, |g.spans|), Span(g.start, g.first, g.last, k))
    requires hunk == DiffHunk(1 + OldSeen(L, g.start), 0, 1 + NewSeen(L, g.start), 0, Window(L, g.start, k + 1))
    requires contextBuffer == Window(L, g.last + 1, k + 1) && |contextBuffer| > ContextLines
    ensures Scanned(L, k + 1, st', g')
  {
    var r := Span(g.start, g.first, g.last, k);
    var hunks := FinishOpenHunk(L, st.hunks, hunk, contextBuffer, g.start, g.first, g.last, k);
    CloseSpan(L, st.hunks, g.spans, r);
    g' := g.(spans := g.spans + [r]);
    st' := st.(hunks := hunks, currentHunk := None, contextBuffer := []);
    assert Window(L, k + 1, k + 1) == [];
  }

  /** `finishHunk` on a hunk open from `s` when the fourth equal line after
      its last change arrives: the window up to that line is kept. */
  method FinishOpenHunk(ghost L: seq<LineDiff>, hunks: seq<DiffHunk>, hunk: DiffHunk, contextBuffer: seq<DiffLine>,
                        ghost s: nat, ghost first: nat, ghost last: nat, ghost k: nat)
    returns (hunks': seq<DiffHunk>)
    requires s <= first <= last < k < |L| && k == last + 1 + ContextLines
    requires IsChange(L, first) && IsChange(L, last) && AllEqual(L, last + 1, k + 1)
    requires hunk == DiffHunk(1 + OldSeen(L, s), 0, 1 + NewSeen(L, s), 0, Window(L, s, k + 1))
    requires |contextBuffer| == k - last
    ensures hunks' == hunks + [HunkOf(L, s, k)]
  {
    hunks' := FinishHunk(hunks, hunk, |contextBuffer|);
    FinishedWindow(L, s, first, last, k);
  }

  /** Closing an open span on the fourth equal line: it joins the
      finished ones. */
  lemma {:induction false} CloseSpan(L: seq<LineDiff>, hunks: seq<DiffHunk>, spans: seq<Span>, r: Span)
    requires ClosedSpans(L, hunks, spans)
    requires OpenSpan(L, Boundary(spans, |spans|), r) && r.end < |L| && !IsChange(L, r.end)
    requires r.end - r.last > ContextLines
    ensures ClosedSpans(L, hunks + [HunkOf(L, r.start, r.end)], spans + [r])
    ensures Boundary(spans + [r], |spans| + 1) == r.end + 1
  {
    StepOpenClose(L, Boundary(spans, |spans|), r);
    ClosedSpansAppend(L, hunks, spans, r);
  }

  /** The hunk open from `s` when the fourth equal line after its last
      change arrives comes out of `finishHunk` as the window up to that
      line, and it holds a change. */
  lemma {:induction false} FinishedWindow(L: seq<LineDiff>, s: nat, first: nat, last: nat, k: nat)
    requires s <= first <= last < k < |L| && k == last + 1 + ContextLines
    requires IsChange(L, first) && IsChange(L, last) && AllEqual(L, last + 1, k + 1)
    ensures Finished(DiffHunk(1 + OldSeen(L, s), 0, 1 + NewSeen(L, s), 0, Window(L, s, k + 1)), k - last)
      == [HunkOf(L, s, k)]
  {
    TrailingFour(L, s, last, k);
    WindowAt(L, s, k, first - s);
    assert HasChangeLine(Window(L, s, k));
  }

  /** Four equal lines end the window that closes a hunk, the first three
      of them after its last change: trimming drops just the fourth. */
  lemma {:induction false} TrailingFour(L: seq<LineDiff>, s: nat, last: nat, k: nat)
    requires s <= last < k < |L| && k == last + 1 + ContextLines
    requires IsChange(L, last) && AllEqual(L, last + 1, k + 1)
    ensures TrimmedLines(Window(L, s, k + 1), 4) == Window(L, s, k)
  {
    TrailingEqual(L, s, k);
    TrailingEqual(L, s, k - 1);
    TrailingEqual(L, s, k - 2);
    TrailingEqual(L, s, k - 3);
    var w := Window(L, s, k + 1);
    assert w[..|w| - 1] == Window(L, s, k);
  }

  /** An equal line at the end of a window adds one trailing context line. */
  lemma {:induction false} TrailingEqual(L: seq<LineDiff>, s: nat, e: nat)
    requires s <= e < |L| && !IsChange(L, e)
    ensures TrailingContext(Window(L, s, e + 1)) == 1 + TrailingContext(Window(L, s, e))
  {
    WindowSnoc(L, s, e);
    var w := Window(L, s, e + 1);
    assert w[..|w| - 1] == Window(L, s, e);
  }

  /** The loop body for an added or deleted line: a hunk opens with the
      buffered lines if none is open, and the line joins it. */
  method ChangeLine(L: seq<LineDiff>, k: nat, st: Hunker, ghost g: Track) returns (st': Hunker, ghost g': Track)
    requires k < |L| && IsChange(L, k) && Scanned(L, k, st, g)
    ensures Scanned(L, k + 1, st', g')
  {
    ghost var b := Boundary(g.spans, |g.spans|);
    var hunk: DiffHunk;
    ghost var start, first;
    if st.currentHunk.None? {
      start, first := Max(b, k - ContextLines), k;
      hunk := OpenHunk(L, k, st.oldLineNum, st.newLineNum, st.contextBuffer, b);
    } else {
      start, first := g.start, g.first;
      hunk := st.currentHunk.value;
      StepOpenChange(L, b, Span(g.start, g.first, g.last, k));
    }
    st', g' := PushChange(L, k, st, g, hunk, start, first);
  }

  /** A change while no hunk is open: the hunk starts at the buffered
      lines, numbered from where they start. */
  method OpenHunk(L: seq<LineDiff>, k: nat, oldLineNum: int, newLineNum: int, contextBuffer: seq<DiffLine>, ghost b: nat)
    returns (hunk: DiffHunk)
    requires b <= k < |L| && IsChange(L, k) && AllEqual(L, b, k)
    requires oldLineNum == 1 + OldSeen(L, k) && newLineNum == 1 + NewSeen(L, k)
    requires contextBuffer == Window(L, Max(b, k - ContextLines), k)
    ensures var start := Max(b, k - ContextLines);
      hunk == DiffHunk(1 + OldSeen(L, start), 0, 1 + NewSeen(L, start), 0, Window(L, start, k)) &&
      OpenSpan(L, b, Span(start, k, k, k + 1))
  {
    SeenOverEqualRun(L, Max(b, k - ContextLines), k);
    hunk := DiffHunk(Max(1, oldLineNum - |contextBuffer|), 0,
                     Max(1, newLineNum - |contextBuffer|), 0, contextBuffer);
    StepClosedChange(L, b, k);
  }

  /** An added or deleted line joins the open hunk, numbered by the one
      counter it consumes, and the buffer empties. */
  method PushChange(L: seq<LineDiff>, k: nat, st: Hunker, ghost g: Track, hunk: DiffHunk, ghost start: nat, ghost first: nat)
    returns (st': Hunker, ghost g': Track)
    requires k < |L| && IsChange(L, k)
    requires st.oldLineNum == 1 + OldSeen(L, k) && st.newLineNum == 1 + NewSeen(L, k)
    requires ClosedSpans(L, st.hunks, g.spans)
    requires OpenSpan(L, Boundary(g.spans, |g.spans|), Span(start, first, k, k + 1))
    requires hunk == DiffHunk(1 + OldSeen(L, start), 0, 1 + NewSeen(L, start), 0, Window(L, start, k))
    ensures Scanned(L, k + 1, st', g')
  {
    var diffLine;
    st' := st.(contextBuffer := []);
    if L[k].kind == LDelete {
      diffLine := DiffLine(Delete, Some(st.oldLineNum), None, L[k].line, None);
      st' := st'.(oldLineNum := st.oldLineNum + 1);
    } else {
      diffLine := DiffLine(Add, None, Some(st.newLineNum), L[k].line, None);
      st' := st'.(newLineNum := st.newLineNum + 1);
    }
    assert diffLine == NumberedLine(L, k);
    st' := st'.(currentHunk := Some(hunk.(lines := hunk.lines + [diffLine])));
    g' := Track(g.spans, start, first, k);
    assert Window(L, k + 1, k + 1) == [];
  }

  /** The hunking loop of `computeHunks`, through the push of the last
      open hunk: the hunks come out laid out over the line diff as
      `Layout` says, and `spans` says where each one sits. */
  method GroupLines(L: seq<LineDiff>) returns (hunks: seq<DiffHunk>, ghost spans: seq<Span>)
    ensures Layout(L, hunks, spans)
  {
    var st := Hunker(1, 1, [], None, []);
    ghost var g := Track([], 0, 0, 0);
    for k := 0 to |L|
      invariant Scanned(L, k, st, g)
    {
      if L[k].kind == LEqual {
        st, g := EqualLine(L, k, st, g);
      } else {
        st, g := ChangeLine(L, k, st, g);
      }
    }
    hunks, spans := FinishLast(L, st, g);
  }

  /** After the loop: the open hunk is pushed, recounted, if it holds a
      change. */
  method FinishLast(L: seq<LineDiff>, st: Hunker, ghost g: Track) returns (hunks: seq<DiffHunk>, ghost spans: seq<Span>)
    requires Scanned(L, |L|, st, g)
    ensures Layout(L, hunks, spans)
  {
    hunks, spans := st.hunks, g.spans;
    if st.currentHunk.Some? {
      WindowAt(L, g.start, |L|, g.first - g.start);
    }
    if st.currentHunk.Some? && HasChangeLine(st.currentHunk.value.lines) {
      var r := Span(g.start, g.first, g.last, |L|);
      ClosedSpansAppend(L, hunks, spans, r);
      hunks := hunks + [UpdateHunkCounts(st.currentHunk.value)];
      spans := spans + [r];
    } else if st.currentHunk.Some? {
      assert false;
    }
  }

  // ----- What the layout guarantees -----

  /** A window counts as many old lines as the old counter advances over
      it. */
  lemma {:induction false} CountOldWindow(L: seq<LineDiff>, s: nat, e: nat)
    requires s <= e <= |L|
    ensures CountOld(Window(L, s, e)) == OldSeen(L, e) - OldSeen(L, s)
    decreases e
  {
    if e > s {
      CountOldWindow(L, s, e - 1);
      var w := Window(L, s, e);
      assert w[..|w| - 1] == Window(L, s, e - 1);
      assert w[|w| - 1] == NumberedLine(L, e - 1);
      assert (w[|w| - 1].kind == Add) == (L[e - 1].kind == LAdd);
    }
  }

  /** A window counts as many new lines as the new counter advances over
      it. */
  lemma {:induction false} CountNewWindow(L: seq<LineDiff>, s: nat, e: nat)
    requires s <= e <= |L|
    ensures CountNew(Window(L, s, e)) == NewSeen(L, e) - NewSeen(L, s)
    decreases e
  {
    if e > s {
      CountNewWindow(L, s, e - 1);
      var w := Window(L, s, e);
      assert w[..|w| - 1] == Window(L, s, e - 1);
      assert w[|w| - 1] == NumberedLine(L, e - 1);
      assert (w[|w| - 1].kind == Delete) == (L[e - 1].kind == LDelete);
    }
  }

  /** The first `j` lines of a window are the window of the first `j`
      indices. */
  lemma {:induction false} WindowPrefix(L: seq<LineDiff>, s: nat, e: nat, j: nat)
    requires s <= e <= |L| && j <= e - s
    ensures Window(L, s, e)[..j] == Window(L, s, s + j)
    decreases e
  {
    if s + j < e {
      WindowPrefix(L, s, e - 1, j);
      assert Window(L, s, e)[..j] == Window(L, s, e - 1)[..j];
    }
  }

  /** A window holding a change is a well-formed hunk: counts, starts and
      the numbering of every line agree. */
  lemma {:induction false} HunkOfWellFormed(L: seq<LineDiff>, s: nat, e: nat, c: nat)
    requires s <= c < e <= |L| && IsChange(L, c)
    ensures WellFormed(HunkOf(L, s, e))
  {
    var w := Window(L, s, e);
    WindowAt(L, s, e, c - s);
    assert w[c - s].kind != Context;
    WindowNumbered(L, s, e);
  }

  lemma {:induction false} WindowNumbered(L: seq<LineDiff>, s: nat, e: nat)
    requires s <= e <= |L|
    ensures NumberedFrom(Window(L, s, e), 1 + OldSeen(L, s), 1 + NewSeen(L, s))
  {
    forall j | 0 <= j < e - s {
      WindowLineNumbered(L, s, e, j);
    }
  }

  /** Line `j` of a window carries the starts plus the lines counted
      before it. */
  lemma {:induction false} WindowLineNumbered(L: seq<LineDiff>, s: nat, e: nat, j: nat)
    requires s <= e <= |L| && j < e - s
    ensures var w := Window(L, s, e);
      (w[j].oldNumber == if w[j].kind == Add then None else Some(1 + OldSeen(L, s) + CountOld(w[..j]))) &&
      (w[j].newNumber == if w[j].kind == Delete then None else Some(1 + NewSeen(L, s) + CountNew(w[..j])))
  {
    WindowAt(L, s, e, j);
    WindowPrefix(L, s, e, j);
    WindowLineOld(L, s, e, j);
    WindowLineNew(L, s, e, j);
  }

  lemma {:induction false} WindowLineOld(L: seq<LineDiff>, s: nat, e: nat, j: nat)
    requires s <= e <= |L| && j < e - s
    requires Window(L, s, e)[j] == NumberedLine(L, s + j)
    requires Window(L, s, e)[..j] == Window(L, s, s + j)
    ensures var w := Window(L, s, e);
      w[j].oldNumber == if w[j].kind == Add then None else Some(1 + OldSeen(L, s) + CountOld(w[..j]))
  {
    var w := Window(L, s, e);
    var d := NumberedLine(L, s + j);
    CountOldWindow(L, s, s + j);
    assert CountOld(w[..j]) == OldSeen(L, s + j) - OldSeen(L, s);
    assert d.oldNumber == if d.kind == Add then None else Some(1 + OldSeen(L, s + j));
  }

  lemma {:induction false} WindowLineNew(L: seq<LineDiff>, s: nat, e: nat, j: nat)
    requires s <= e <= |L| && j < e - s
    requires Window(L, s, e)[j] == NumberedLine(L, s + j)
    requires Window(L, s, e)[..j] == Window(L, s, s + j)
    ensures var w := Window(L, s, e);
      w[j].newNumber == if w[j].kind == Delete then None else Some(1 + NewSeen(L, s) + CountNew(w[..j]))
  {
    var w := Window(L, s, e);
    var d := NumberedLine(L, s + j);
    CountNewWindow(L, s, s + j);
    assert CountNew(w[..j]) == NewSeen(L, s + j) - NewSeen(L, s);
    assert d.newNumber == if d.kind == Delete then None else Some(1 + NewSeen(L, s + j));
  }

  /** Every hunk the loop emits is well formed. */
  lemma {:induction false} LayoutWellFormed(L: seq<LineDiff>, hunks: seq<DiffHunk>, spans: seq<Span>, i: nat)
    requires Layout(L, hunks, spans) && i < |hunks|
    ensures WellFormed(hunks[i])
  {
    ClosedSpansAt(L, hunks, spans, i);
    HunkOfWellFormed(L, spans[i].start, spans[i].end, spans[i].first);
  }

  /** Spans come in order: each ends before the next starts, every line
      between the last change of one and the first change of the next is
      equal, and there are more than three of them. */
  lemma {:induction false} LayoutSeparated(L: seq<LineDiff>, hunks: seq<DiffHunk>, spans: seq<Span>, i: nat)
    requires Layout(L, hunks, spans) && i + 1 < |spans|
    ensures spans[i].end < spans[i + 1].start
    ensures spans[i].last + ContextLines + 1 < spans[i + 1].first < |L|
    ensures AllEqual(L, spans[i].last + 1, spans[i + 1].first)
  {
    ClosedSpansAt(L, hunks, spans, i);
    ClosedSpansAt(L, hunks, spans, i + 1);
    var r, q := spans[i], spans[i + 1];
    assert Boundary(spans, i + 1) == r.end + 1;
    assert r.end < |L|;
    assert !IsChange(L, r.end);
  }

  /** A change at or after the boundary of span `i` lies between the first
      and last change of span `i` or of a later one. */
  lemma {:induction false} FindSpan(L: seq<LineDiff>, hunks: seq<DiffHunk>, spans: seq<Span>, i: nat, j: nat)
    requires Layout(L, hunks, spans) && i <= |spans|
    requires Boundary(spans, i) <= j < |L| && IsChange(L, j)
    ensures exists n :: i <= n < |spans| && spans[n].first <= j <= spans[n].last
    decreases |spans| - i
  {
    if i == |spans| {
      assert false;
    }
    ClosedSpansAt(L, hunks, spans, i);
    var r := spans[i];
    if j < r.first || (r.last < j <= r.end) {
      assert false;
    } else if j > r.end {
      FindSpan(L, hunks, spans, i + 1, j);
    }
  }

  /** Every added or deleted line appears, numbered, in the hunk whose
      changes surround it. */
  lemma {:induction false} LayoutCoversChanges(L: seq<LineDiff>, hunks: seq<DiffHunk>, spans: seq<Span>, j: nat)
    requires Layout(L, hunks, spans) && j < |L| && IsChange(L, j)
    ensures exists n :: (0 <= n < |spans| && n < |hunks| &&
      spans[n].start <= spans[n].first <= j <= spans[n].last < spans[n].end &&
      |hunks[n].lines| == spans[n].end - spans[n].start &&
      hunks[n].lines[j - spans[n].start] == NumberedLine(L, j))
  {
    FindSpan(L, hunks, spans, 0, j);
    var n :| 0 <= n < |spans| && spans[n].first <= j <= spans[n].last;
    ClosedSpansAt(L, hunks, spans, n);
    WindowAt(L, spans[n].start, spans[n].end, j - spans[n].start);
  }

  /** Every line of a hunk is the numbered line of the line diff at its
      place in the hunk's span. */
  lemma {:induction false} LayoutLine(L: seq<LineDiff>, hunks: seq<DiffHunk>, spans: seq<Span>, i: nat, t: nat)
    requires Layout(L, hunks, spans) && i < |hunks| && t < |hunks[i].lines|
    ensures spans[i].start + t < |L|
    ensures hunks[i].lines[t] == NumberedLine(L, spans[i].start + t)
  {
    ClosedSpansAt(L, hunks, spans, i);
    WindowAt(L, spans[i].start, spans[i].end, t);
  }

  /** No hunks come out exactly when the line diff holds no change. */
  lemma {:induction false} LayoutEmpty(L: seq<LineDiff>, hunks: seq<DiffHunk>, spans: seq<Span>)
    requires Layout(L, hunks, spans)
    ensures hunks == [] <==> forall j :: 0 <= j < |L| ==> !IsChange(L, j)
  {
    if hunks != [] {
      ClosedSpansAt(L, hunks, spans, 0);
    } else {
      assert Boundary(spans, |spans|) == 0;
    }
  }

  /** The counters before index `k` are the numbers of old and new lines
      in `L[..k]`. */
  lemma {:induction false} SeenCountsPrefix(L: seq<LineDiff>, k: nat)
    requires k <= |L|
    ensures |OldLines(L[..k])| == OldSeen(L, k) && |NewLines(L[..k])| == NewSeen(L, k)
    decreases k
  {
    if k > 0 {
      SeenCountsPrefix(L, k - 1);
      assert L[..k][..k - 1] == L[..k - 1];
    }
  }

  /** A line numbered `n` on a side shows line `n` of that side of the
      line diff. */
  lemma {:induction false} NumberedLineContent(L: seq<LineDiff>, j: nat)
    requires j < |L|
    ensures var d := NumberedLine(L, j);
      (d.oldNumber.Some? ==> 1 <= d.oldNumber.value <= |OldLines(L)| && OldLines(L)[d.oldNumber.value - 1] == d.content) &&
      (d.newNumber.Some? ==> 1 <= d.newNumber.value <= |NewLines(L)| && NewLines(L)[d.newNumber.value - 1] == d.content)
  {
    SeenCountsPrefix(L, j);
    assert L == L[..j + 1] + L[j + 1..];
    OldLinesAppend(L[..j + 1], L[j + 1..]);
    assert L[..j + 1][..j] == L[..j];
  }
}
