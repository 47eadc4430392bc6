/** The line-level diff of `computeLineDiff` (src/lib/server/diff/engine.ts):
    every distinct line becomes one token, a character diff runs over the
    token strings, and its edits are expanded back into lines. The
    character differ (diff-match-patch's `diff_main`) is a parameter; what
    the model relies on is that its edits rebuild both inputs. */
module LineDiffs {
  import opened Strings

  /** The operation codes of diff-match-patch: 0, 1 and -1. */
  datatype Op = EqualOp | InsertOp | DeleteOp

  /** One edit of a character-level script; each token stands for a line. */
  datatype Edit = Edit(op: Op, tokens: seq<int>)

  datatype LineKind = LEqual | LAdd | LDelete

  /** One line of the line-level result and what happened to it. */
  datatype LineDiff = LineDiff(kind: LineKind, line: string)

  /** The tokens an edit script keeps or deletes: its old side. */
  function OldSide(diffs: seq<Edit>): seq<int>
  {
    if diffs == [] then []
    else
      var last := diffs[|diffs| - 1];
      OldSide(diffs[..|diffs| - 1]) + (if last.op == InsertOp then [] else last.tokens)
  }

  /** The tokens an edit script keeps or inserts: its new side. */
  function NewSide(diffs: seq<Edit>): seq<int>
  {
    if diffs == [] then []
    else
      var last := diffs[|diffs| - 1];
      NewSide(diffs[..|diffs| - 1]) + (if last.op == DeleteOp then [] else last.tokens)
  }

  /** An edit script from `a` to `b` rebuilds `a` from its old side and
      `b` from its new side. */
  ghost predicate ValidScript(diffs: seq<Edit>, a: seq<int>, b: seq<int>)
  {
    OldSide(diffs) == a && NewSide(diffs) == b
  }

  /** The differ never returns an edit script that does not rebuild its
      inputs. */
  ghost predicate Reconstructs(diffMain: (seq<int>, seq<int>) -> seq<Edit>)
  {
    forall a, b :: ValidScript(diffMain(a, b), a, b)
  }

  /** The lines of the old file as the result lists them: equal and
      deleted lines in order. */
  function OldLines(result: seq<LineDiff>): seq<string>
  {
    if result == [] then []
    else
      var last := result[|result| - 1];
      OldLines(result[..|result| - 1]) + (if last.kind == LAdd then [] else [last.line])
  }

  /** The lines of the new file: equal and added lines in order. */
  function NewLines(result: seq<LineDiff>): seq<string>
  {
    if result == [] then []
    else
      var last := result[|result| - 1];
      NewLines(result[..|result| - 1]) + (if last.kind == LDelete then [] else [last.line])
  }

  /** `lineArray[t] ?? ''`. */
  function Lookup(lineArray: seq<string>, t: int): string
  {
    if 0 <= t < |lineArray| then lineArray[t] else ""
  }

  function Decode(tokens: seq<int>, lineArray: seq<string>): (r: seq<string>)
    ensures |r| == |tokens|
    ensures forall i :: 0 <= i < |tokens| ==> r[i] == Lookup(lineArray, tokens[i])
  {
    seq(|tokens|, i requires 0 <= i < |tokens| => Lookup(lineArray, tokens[i]))
  }

  function KindOf(op: Op): LineKind
  {
    match op
    case EqualOp => LEqual
    case InsertOp => LAdd
    case DeleteOp => LDelete
  }

  /** The lines one edit expands into. */
  function ExpandEdit(e: Edit, lineArray: seq<string>): (r: seq<LineDiff>)
    ensures |r| == |e.tokens|
    ensures forall i :: 0 <= i < |r| ==> r[i] == LineDiff(KindOf(e.op), Lookup(lineArray, e.tokens[i]))
  {
    seq(|e.tokens|, i requires 0 <= i < |e.tokens| => LineDiff(KindOf(e.op), Lookup(lineArray, e.tokens[i])))
  }

  /** The lines a whole edit script expands into. */
  function Expand(diffs: seq<Edit>, lineArray: seq<string>): seq<LineDiff>
  {
    if diffs == [] then []
    else Expand(diffs[..|diffs| - 1], lineArray) + ExpandEdit(diffs[|diffs| - 1], lineArray)
  }

  lemma {:induction false} OldLinesAppend(a: seq<LineDiff>, b: seq<LineDiff>)
    ensures OldLines(a + b) == OldLines(a) + OldLines(b)
    ensures NewLines(a + b) == NewLines(a) + NewLines(b)
    decreases |b|
  {
    if b == [] {
      assert a + b == a;
    } else {
      var b' := b[..|b| - 1];
      OldLinesAppend(a, b');
      assert (a + b)[..|a + b| - 1] == a + b';
      assert (a + b)[|a + b| - 1] == b[|b| - 1];
    }
  }

  /** The old lines of one expanded edit are its decoded tokens when it
      keeps or deletes them, and nothing when it inserts. */
  lemma {:induction false} SidesOfExpandEdit(e: Edit, lineArray: seq<string>, n: nat)
    requires n <= |e.tokens|
    ensures OldLines(ExpandEdit(e, lineArray)[..n]) ==
      if e.op == InsertOp then [] else Decode(e.tokens[..n], lineArray)
    ensures NewLines(ExpandEdit(e, lineArray)[..n]) ==
      if e.op == DeleteOp then [] else Decode(e.tokens[..n], lineArray)
  {
    if n > 0 {
      SidesOfExpandEdit(e, lineArray, n - 1);
      var x := ExpandEdit(e, lineArray);
      assert x[..n][..n - 1] == x[..n - 1];
      assert Decode(e.tokens[..n], lineArray) == Decode(e.tokens[..n - 1], lineArray) + [Lookup(lineArray, e.tokens[n - 1])];
    }
  }

  lemma {:induction false} DecodeAppend(a: seq<int>, b: seq<int>, lineArray: seq<string>)
    ensures Decode(a + b, lineArray) == Decode(a, lineArray) + Decode(b, lineArray)
  {
  }

  /** Expanding a script and projecting it to either side is decoding that
      side of the script. */
  lemma {:induction false} ExpandProjects(diffs: seq<Edit>, lineArray: seq<string>)
    ensures OldLines(Expand(diffs, lineArray)) == Decode(OldSide(diffs), lineArray)
    ensures NewLines(Expand(diffs, lineArray)) == Decode(NewSide(diffs), lineArray)
  {
    if diffs != [] {
      var init := diffs[..|diffs| - 1];
      var last := diffs[|diffs| - 1];
      var x := ExpandEdit(last, lineArray);
      ExpandProjects(init, lineArray);
      OldLinesAppend(Expand(init, lineArray), x);
      SidesOfExpandEdit(last, lineArray, |last.tokens|);
      assert x[..|last.tokens|] == x;
      assert last.tokens[..|last.tokens|] == last.tokens;
      assert OldLines(Expand(diffs, lineArray)) == Decode(OldSide(diffs), lineArray) by {
        DecodeAppend(OldSide(init), if last.op == InsertOp then [] else last.tokens, lineArray);
      }
      assert NewLines(Expand(diffs, lineArray)) == Decode(NewSide(diffs), lineArray) by {
        DecodeAppend(NewSide(init), if last.op == DeleteOp then [] else last.tokens, lineArray);
      }
    }
  }

  /** `tokens` stand, through `lineArray`, for the '\n'-separated lines of
      `text`, one token per line. */
  ghost predicate Tokenised(text: string, tokens: seq<int>, lineArray: seq<string>)
  {
    (forall i :: 0 <= i < |tokens| ==> 0 <= tokens[i] < |lineArray|) &&
    Decode(tokens, lineArray) == Split(text, '\n')
  }

  /** No line appears twice in the table, so a token names one line. */
  ghost predicate DistinctLines(lineArray: seq<string>)
  {
    forall t, u :: 0 <= t < u < |lineArray| ==> lineArray[t] != lineArray[u]
  }

  /** `result` is what `computeLineDiff` returns: both texts tokenised
      against one table of distinct lines, the differ run on the two token
      strings, and its script expanded back into lines. */
  ghost predicate LineDiffOf(oldLines: seq<string>, newLines: seq<string>,
                             diffMain: (seq<int>, seq<int>) -> seq<Edit>, result: seq<LineDiff>,
                             oldTokens: seq<int>, newTokens: seq<int>, lineArray: seq<string>)
  {
    Tokenised(Join(oldLines, '\n'), oldTokens, lineArray) &&
    Tokenised(Join(newLines, '\n'), newTokens, lineArray) &&
    DistinctLines(lineArray) &&
    result == Expand(diffMain(oldTokens, newTokens), lineArray)
  }

  /** `L` is the line diff `computeLineDiff` makes of the two texts, for
      some tokenisation of them. */
  ghost predicate ComputedLineDiff(oldLines: seq<string>, newLines: seq<string>,
                                   diffMain: (seq<int>, seq<int>) -> seq<Edit>, L: seq<LineDiff>)
  {
    exists oldTokens, newTokens, lineArray ::
      LineDiffOf(oldLines, newLines, diffMain, L, oldTokens, newTokens, lineArray)
  }

  /** Equal tokens of the two texts stand for equal lines, and the other
      way round. */
  lemma {:induction false} TokensMatchLines(oldLines: seq<string>, newLines: seq<string>,
                                            diffMain: (seq<int>, seq<int>) -> seq<Edit>, result: seq<LineDiff>,
                                            oldTokens: seq<int>, newTokens: seq<int>, lineArray: seq<string>,
                                            i: int, j: int)
    requires LineDiffOf(oldLines, newLines, diffMain, result, oldTokens, newTokens, lineArray)
    requires 0 <= i < |oldTokens| && 0 <= j < |newTokens|
    ensures oldTokens[i] == newTokens[j] <==>
      Split(Join(oldLines, '\n'), '\n')[i] == Split(Join(newLines, '\n'), '\n')[j]
  {
    assert Decode(oldTokens, lineArray)[i] == lineArray[oldTokens[i]];
    assert Decode(newTokens, lineArray)[j] == lineArray[newTokens[j]];
    if oldTokens[i] < newTokens[j] {
      assert lineArray[oldTokens[i]] != lineArray[newTokens[j]];
    } else if newTokens[j] < oldTokens[i] {
      assert lineArray[newTokens[j]] != lineArray[oldTokens[i]];
    }
  }

  /** When the differ's script rebuilds the two token strings, the line
      diff lists exactly the old lines on its old side and the new lines
      on its new side. */
  lemma {:induction false} LineDiffSides(oldLines: seq<string>, newLines: seq<string>,
                                         diffMain: (seq<int>, seq<int>) -> seq<Edit>, result: seq<LineDiff>,
                                         oldTokens: seq<int>, newTokens: seq<int>, lineArray: seq<string>)
    requires LineDiffOf(oldLines, newLines, diffMain, result, oldTokens, newTokens, lineArray)
    requires ValidScript(diffMain(oldTokens, newTokens), oldTokens, newTokens)
    ensures OldLines(result) == Split(Join(oldLines, '\n'), '\n')
    ensures NewLines(result) == Split(Join(newLines, '\n'), '\n')
  {
    ExpandProjects(diffMain(oldTokens, newTokens), lineArray);
  }

  /** The token table of `computeLineDiff`: `lineArray` lists the distinct
      lines in order of first sight and `lineHash` maps each back to its
      index. */
  class LineTable {
    var lineArray: seq<string>
    var lineHash: map<string, int>

    ghost predicate Valid()
      reads this
    {
      (forall l :: l in lineHash ==> 0 <= lineHash[l] < |lineArray| && lineArray[lineHash[l]] == l) &&
      (forall t :: 0 <= t < |lineArray| ==> lineArray[t] in lineHash && lineHash[lineArray[t]] == t)
    }

    constructor ()
      ensures Valid()
      ensures lineArray == [] && lineHash == map[]
    {
      lineArray := [];
      lineHash := map[];
    }

    /** Two tokens of the table stand for the same line only when they are
        the same token. */
    lemma {:induction false} TokensDistinct(t: int, u: int)
      requires Valid()
      requires 0 <= t < |lineArray| && 0 <= u < |lineArray|
      ensures lineArray[t] == lineArray[u] <==> t == u
    {
    }

    /** `linesToChars`: one token per '\n'-separated line of `text`, a new
        token for each line not seen before. */
    method LinesToChars(text: string) returns (chars: seq<int>)
      requires Valid()
      modifies this
      ensures Valid()
      ensures old(lineArray) <= lineArray
      ensures forall i :: 0 <= i < |chars| ==> 0 <= chars[i] < |lineArray|
      ensures Decode(chars, lineArray) == Split(text, '\n')
      ensures lineHash.Keys == old(lineHash.Keys) + set l | l in Split(text, '\n')
    {
      var lines := Split(text, '\n');
      chars := [];
      ghost var before := lineArray;
      ghost var keys := lineHash.Keys;
      for i := 0 to |lines|
        invariant Valid()
        invariant before <= lineArray
        invariant |chars| == i
        invariant forall j :: 0 <= j < i ==> 0 <= chars[j] < |lineArray| && lineArray[chars[j]] == lines[j]
        invariant forall l :: l in lineHash <==> l in keys || l in lines[..i]
      {
        var line := lines[i];
        assert lines[..i + 1] == lines[..i] + [line];
        if line in lineHash {
          chars := chars + [lineHash[line]];
        } else {
          var token := |lineArray|;
          lineArray := lineArray + [line];
          lineHash := lineHash[line := token];
          chars := chars + [token];
        }
      }
      assert lines[..|lines|] == lines;
      assert Decode(chars, lineArray) == lines;
    }
  }

  /** Decoding with a table that has only grown gives the same lines. */
  lemma {:induction false} DecodeGrown(tokens: seq<int>, a: seq<string>, b: seq<string>)
    requires a <= b
    requires forall i :: 0 <= i < |tokens| ==> 0 <= tokens[i] < |a|
    ensures Decode(tokens, a) == Decode(tokens, b)
  {
  }

  /** `computeLineDiff`: the old and new lines are joined with '\n',
      tokenised against one shared table, diffed, and expanded back. The
      ghost results are the two token strings handed to the differ. */
  method ComputeLineDiff(oldLines: seq<string>, newLines: seq<string>,
                         diffMain: (seq<int>, seq<int>) -> seq<Edit>)
    returns (result: seq<LineDiff>, ghost oldTokens: seq<int>, ghost newTokens: seq<int>,
             ghost lineArray: seq<string>)
    ensures LineDiffOf(oldLines, newLines, diffMain, result, oldTokens, newTokens, lineArray)
    ensures |oldTokens| == |Split(Join(oldLines, '\n'), '\n')|
    ensures |newTokens| == |Split(Join(newLines, '\n'), '\n')|
    ensures forall i, j :: 0 <= i < |oldTokens| && 0 <= j < |newTokens| ==>
      (oldTokens[i] == newTokens[j] <==>
       Split(Join(oldLines, '\n'), '\n')[i] == Split(Join(newLines, '\n'), '\n')[j])
    ensures ValidScript(diffMain(oldTokens, newTokens), oldTokens, newTokens) ==>
      OldLines(result) == Split(Join(oldLines, '\n'), '\n') &&
      NewLines(result) == Split(Join(newLines, '\n'), '\n')
  {
    var oldText := Join(oldLines, '\n');
    var newText := Join(newLines, '\n');
    var table := new LineTable();
    var chars1 := table.LinesToChars(oldText);
    ghost var firstArray := table.lineArray;
    var chars2 := table.LinesToChars(newText);
    var lines := table.lineArray;
    DecodeGrown(chars1, firstArray, lines);
    oldTokens, newTokens, lineArray := chars1, chars2, lines;
    forall t, u | 0 <= t < u < |lines|
      ensures lines[t] != lines[u]
    {
      table.TokensDistinct(t, u);
    }

    var diffs := diffMain(chars1, chars2);
    result := ExpandScript(diffs, lines);
    forall i, j | 0 <= i < |chars1| && 0 <= j < |chars2|
      ensures chars1[i] == chars2[j] <==> Split(oldText, '\n')[i] == Split(newText, '\n')[j]
    {
      TokensMatchLines(oldLines, newLines, diffMain, result, oldTokens, newTokens, lineArray, i, j);
    }
    if ValidScript(diffs, chars1, chars2) {
      LineDiffSides(oldLines, newLines, diffMain, result, oldTokens, newTokens, lineArray);
    }
  }

  /** The closing loops of `computeLineDiff`: each token of each edit
      becomes one line, typed by the edit's operation. */
  method ExpandScript(diffs: seq<Edit>, lineArray: seq<string>) returns (result: seq<LineDiff>)
    ensures result == Expand(diffs, lineArray)
  {
    result := [];
    for e := 0 to |diffs|
      invariant result == Expand(diffs[..e], lineArray)
    {
      var edit := diffs[e];
      var kind := KindOf(edit.op);
      for c := 0 to |edit.tokens|
        invariant result == Expand(diffs[..e], lineArray) + ExpandEdit(edit, lineArray)[..c]
      {
        var t := edit.tokens[c];
        var line := if 0 <= t < |lineArray| then lineArray[t] else "";
        result := result + [LineDiff(kind, line)];
        assert ExpandEdit(edit, lineArray)[..c + 1] == ExpandEdit(edit, lineArray)[..c] + [LineDiff(kind, line)];
      }
      assert ExpandEdit(edit, lineArray)[..|edit.tokens|] == ExpandEdit(edit, lineArray);
      assert diffs[..e + 1][..e] == diffs[..e];
    }
    assert diffs[..|diffs|] == diffs;
  }
}
