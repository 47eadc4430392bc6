/** String helpers shared by the models: JavaScript's `split` with a
    one-character separator and its inverse `join`, ASCII lower-casing, the
    ECMAScript white-space class, and the code-unit-wise ordering used by
    `Array.prototype.sort`. */
module Strings {

  /** The pieces of `s` between occurrences of `c`, as `s.split(c)` gives
      them for a one-character separator: `""` splits into `[""]`. */
  function Split(s: string, c: char): (r: seq<string>)
    ensures |r| >= 1
    ensures forall i :: 0 <= i < |r| ==> c !in r[i]
  {
    if s == [] then [""]
    else
      var rest := Split(s[1..], c);
      if s[0] == c then [""] + rest
      else [[s[0]] + rest[0]] + rest[1..]
  }

  /** `ps.join(c)`. */
  function Join(ps: seq<string>, c: char): string
  {
    if |ps| == 0 then ""
    else if |ps| == 1 then ps[0]
    else ps[0] + [c] + Join(ps[1..], c)
  }

  /** There is one piece more than there are separators. */
  lemma {:induction false} SplitLength(s: string, c: char)
    ensures |Split(s, c)| == multiset(s)[c] + 1
  {
    if s != [] {
      SplitLength(s[1..], c);
      assert s == [s[0]] + s[1..];
      assert multiset(s) == multiset{s[0]} + multiset(s[1..]);
    }
  }

  /** The last piece of `s.split(c)`: the text after the last `c`, or the
      whole of `s` when it holds no `c` (what `split(c).pop()` returns). */
  function LastPiece(s: string, c: char): string
  {
    var ps := Split(s, c);
    ps[|ps| - 1]
  }

  /** Splitting and joining with the same separator gives the input back. */
  lemma {:induction false} JoinSplit(s: string, c: char)
    ensures Join(Split(s, c), c) == s
  {
    if s != [] {
      JoinSplit(s[1..], c);
      var rest := Split(s[1..], c);
      if s[0] == c {
        assert Split(s, c) == [""] + rest;
        assert s == [c] + s[1..];
      } else {
        var r := Split(s, c);
        assert r == [[s[0]] + rest[0]] + rest[1..];
        if |rest| == 1 {
          assert Join(r, c) == [s[0]] + rest[0];
        } else {
          assert r[1..] == rest[1..];
          assert Join(r, c) == [s[0]] + rest[0] + [c] + Join(rest[1..], c);
          assert Join(rest, c) == rest[0] + [c] + Join(rest[1..], c);
        }
        assert s == [s[0]] + s[1..];
      }
    }
  }

  /** A string without the separator is a single piece. */
  lemma {:induction false} SplitNoSeparator(s: string, c: char)
    requires c !in s
    ensures Split(s, c) == [s]
  {
    if s != [] {
      assert c !in s[1..];
      SplitNoSeparator(s[1..], c);
      assert s == [s[0]] + s[1..];
    }
  }

  /** Splitting distributes over a separator: the pieces of `a + [c] + b`
      are the pieces of `a` followed by those of `b`. */
  lemma {:induction false} SplitAround(a: string, b: string, c: char)
    ensures Split(a + [c] + b, c) == Split(a, c) + Split(b, c)
  {
    if a == [] {
      assert a + [c] + b == [c] + b;
      assert ([c] + b)[1..] == b;
    } else {
      var s := a + [c] + b;
      assert s[0] == a[0] && s[1..] == a[1..] + [c] + b;
      SplitAround(a[1..], b, c);
    }
  }

  /** Joining pieces that hold no separator and splitting again gives the
      pieces back. */
  lemma {:induction false} SplitJoin(ps: seq<string>, c: char)
    requires |ps| >= 1
    requires forall i :: 0 <= i < |ps| ==> c !in ps[i]
    ensures Split(Join(ps, c), c) == ps
  {
    if |ps| == 1 {
      SplitNoSeparator(ps[0], c);
    } else {
      SplitJoin(ps[1..], c);
      SplitNoSeparator(ps[0], c);
      SplitAround(ps[0], Join(ps[1..], c), c);
      assert ps == [ps[0]] + ps[1..];
    }
  }

  /** The last piece is a suffix of `s` holding no `c`, and it is preceded
      by a `c` unless it is the whole of `s`. */
  lemma {:induction false} LastPieceIsSuffix(s: string, c: char)
    ensures SuffixPiece(s, LastPiece(s, c), c)
  {
    if s != [] {
      LastPieceIsSuffix(s[1..], c);
      if s[0] != c && |Split(s[1..], c)| == 1 {
        LastPieceFirst(s, c);
      } else {
        LastPieceRest(s, c);
        var p := LastPiece(s[1..], c);
        if s[0] != c && |p| == |s| - 1 {
          assert p == s[1..];
          SplitNoSeparator(s[1..], c);
        }
        SuffixPieceGrows(s, p, c);
      }
    }
  }

  /** A first character other than `c` before a single piece makes the
      whole of `s` one piece. */
  lemma {:induction false} LastPieceFirst(s: string, c: char)
    requires s != [] && s[0] != c && |Split(s[1..], c)| == 1
    ensures LastPiece(s, c) == s && c !in s
  {
    var rest := Split(s[1..], c);
    JoinSplit(s[1..], c);
    assert rest[0] == s[1..];
    assert Split(s, c) == [[s[0]] + rest[0]];
    assert s == [s[0]] + s[1..];
  }

  /** Otherwise the first character does not reach the last piece. */
  lemma {:induction false} LastPieceRest(s: string, c: char)
    requires s != [] && (s[0] == c || |Split(s[1..], c)| > 1)
    ensures LastPiece(s, c) == LastPiece(s[1..], c)
  {
    var rest := Split(s[1..], c);
    var r := Split(s, c);
    if s[0] == c {
      assert r == [""] + rest;
    } else {
      assert r == [[s[0]] + rest[0]] + rest[1..];
    }
  }

  /** `p` is a suffix of `s` without `c`, preceded in `s` by a `c` unless it
      is the whole of `s`. */
  ghost predicate SuffixPiece(s: string, p: string, c: char)
  {
    |p| <= |s| && s[|s| - |p|..] == p && c !in p &&
    (|p| < |s| ==> s[|s| - |p| - 1] == c)
  }

  lemma {:induction false} SuffixPieceGrows(s: string, p: string, c: char)
    requires s != [] && SuffixPiece(s[1..], p, c)
    requires |p| == |s| - 1 ==> s[0] == c
    ensures SuffixPiece(s, p, c)
  {
    assert s[1..][|s| - 1 - |p|..] == s[|s| - |p|..];
    if |p| < |s| - 1 {
      assert s[1..][|s| - 1 - |p| - 1] == s[|s| - |p| - 1];
    }
  }

  /** The last piece of `a + [c] + b` is the last piece of `b`. */
  lemma {:induction false} LastPieceAfter(a: string, b: string, c: char)
    ensures LastPiece(a + [c] + b, c) == LastPiece(b, c)
  {
    SplitAround(a, b, c);
  }

  /** The last piece of a string without `c` is the string itself. */
  lemma {:induction false} LastPieceWhole(s: string, c: char)
    requires c !in s
    ensures LastPiece(s, c) == s
  {
    SplitNoSeparator(s, c);
  }

  /** The index of the first `c` in `s`, or -1: `s.indexOf(c)`. */
  function IndexOf<T(==)>(s: seq<T>, c: T): (i: int)
    ensures -1 <= i < |s|
    ensures i >= 0 ==> s[i] == c && c !in s[..i]
    ensures i < 0 <==> c !in s
  {
    if s == [] then -1
    else if s[0] == c then 0
    else
      var j := IndexOf(s[1..], c);
      if j < 0 then -1 else j + 1
  }

  function LowerChar(ch: char): char
  {
    if 'A' <= ch <= 'Z' then ch - 'A' + 'a' else ch
  }

  /** `toLowerCase` restricted to the ASCII letters. */
  function ToLower(s: string): (r: string)
    ensures |r| == |s|
    ensures forall i :: 0 <= i < |s| ==> r[i] == LowerChar(s[i])
  {
    if s == [] then [] else [LowerChar(s[0])] + ToLower(s[1..])
  }

  /** The characters that ECMAScript's `trim` and `parseInt` skip: the
      WhiteSpace and LineTerminator productions. */
  predicate IsSpace(ch: char)
  {
    ch == '\t' || ch == '\n' || ch == '\U{000B}' || ch == '\U{000C}' || ch == '\r' ||
    ch == ' ' || ch == '\U{00A0}' || ch == '\U{1680}' || ('\U{2000}' <= ch <= '\U{200A}') ||
    ch == '\U{2028}' || ch == '\U{2029}' || ch == '\U{202F}' || ch == '\U{205F}' ||
    ch == '\U{3000}' || ch == '\U{FEFF}'
  }

  /** The line terminators, which a regular expression's `.` does not match. */
  predicate IsLineTerminator(ch: char)
  {
    ch == '\n' || ch == '\r' || ch == '\U{2028}' || ch == '\U{2029}'
  }

  /** `s.trimStart()`. */
  function TrimStart(s: string): string
  {
    if s != [] && IsSpace(s[0]) then TrimStart(s[1..]) else s
  }

  /** `s.trimEnd()`. */
  function TrimEnd(s: string): string
  {
    if s != [] && IsSpace(s[|s| - 1]) then TrimEnd(s[..|s| - 1]) else s
  }

  /** Trimming the start removes exactly the leading white space. */
  lemma {:induction false} TrimStartRemovesLeadingSpace(s: string)
    ensures var r := TrimStart(s);
      |r| <= |s| && r == s[|s| - |r|..] && (r == [] || !IsSpace(r[0])) &&
      forall i :: 0 <= i < |s| - |r| ==> IsSpace(s[i])
  {
    if s != [] && IsSpace(s[0]) {
      TrimStartRemovesLeadingSpace(s[1..]);
      var r := TrimStart(s[1..]);
      assert TrimStart(s) == r;
      assert s[1..][|s| - 1 - |r|..] == s[|s| - |r|..];
      forall i | 0 <= i < |s| - |r| ensures IsSpace(s[i]) {
        if i > 0 {
          assert s[i] == s[1..][i - 1];
        }
      }
    }
  }

  /** Trimming the end removes exactly the trailing white space. */
  lemma {:induction false} TrimEndRemovesTrailingSpace(s: string)
    ensures var r := TrimEnd(s);
      |r| <= |s| && r == s[..|r|] && (r == [] || !IsSpace(r[|r| - 1])) &&
      forall i :: |r| <= i < |s| ==> IsSpace(s[i])
  {
    if s != [] && IsSpace(s[|s| - 1]) {
      TrimEndRemovesTrailingSpace(s[..|s| - 1]);
      var r := TrimEnd(s[..|s| - 1]);
      assert TrimEnd(s) == r;
      assert s[..|s| - 1][..|r|] == s[..|r|];
      forall i | |r| <= i < |s| ensures IsSpace(s[i]) {
        if i < |s| - 1 {
          assert s[i] == s[..|s| - 1][i];
        }
      }
    }
  }

  /** `s.trim()`. */
  function Trim(s: string): string
  {
    TrimEnd(TrimStart(s))
  }

  function StartsWith(s: string, p: string): bool
  {
    |p| <= |s| && s[..|p|] == p
  }

  function EndsWith(s: string, p: string): bool
  {
    |p| <= |s| && s[|s| - |p|..] == p
  }

  /** Strict lexicographic order on character codes, the order of
      `Array.prototype.sort` without a comparator. */
  predicate Less(a: string, b: string)
  {
    if a == [] then b != []
    else if b == [] then false
    else if a[0] == b[0] then Less(a[1..], b[1..])
    else a[0] < b[0]
  }

  lemma {:induction false} LessIrreflexive(a: string)
    ensures !Less(a, a)
  {
    if a != [] { LessIrreflexive(a[1..]); }
  }

  lemma {:induction false} LessTrichotomy(a: string, b: string)
    ensures a == b || Less(a, b) || Less(b, a)
  {
    if a != [] && b != [] && a[0] == b[0] {
      LessTrichotomy(a[1..], b[1..]);
      assert a == [a[0]] + a[1..] && b == [b[0]] + b[1..];
    }
  }

  lemma {:induction false} LessAsymmetric(a: string, b: string)
    ensures !(Less(a, b) && Less(b, a))
  {
    if a != [] && b != [] && a[0] == b[0] {
      LessAsymmetric(a[1..], b[1..]);
    }
  }

  lemma {:induction false} LessTransitive(a: string, b: string, d: string)
    requires Less(a, b) && Less(b, d)
    ensures Less(a, d)
  {
    if a != [] && b != [] && d != [] && a[0] == b[0] && b[0] == d[0] {
      LessTransitive(a[1..], b[1..], d[1..]);
    }
  }

  ghost predicate StrictlySorted(r: seq<string>)
  {
    forall i, j :: 0 <= i < j < |r| ==> Less(r[i], r[j])
  }

  /** Inserts `x` into a strictly sorted sequence that does not hold it. */
  function Insert(r: seq<string>, x: string): (q: seq<string>)
    requires StrictlySorted(r) && x !in r
    ensures StrictlySorted(q)
    ensures multiset(q) == multiset(r) + multiset{x}
  {
    if r == [] then [x]
    else if Less(x, r[0]) then
      InsertFront(r, x);
      [x] + r
    else
      LessTrichotomy(x, r[0]);
      var q' := Insert(r[1..], x);
      InsertAfter(r, x, q');
      [r[0]] + q'
  }

  lemma {:induction false} InsertFront(r: seq<string>, x: string)
    requires StrictlySorted(r) && r != [] && Less(x, r[0])
    ensures StrictlySorted([x] + r)
  {
    forall j | 0 < j < |r| ensures Less(x, r[j]) {
      LessTransitive(x, r[0], r[j]);
    }
  }

  lemma {:induction false} InsertAfter(r: seq<string>, x: string, q': seq<string>)
    requires StrictlySorted(r) && r != [] && Less(r[0], x)
    requires StrictlySorted(q') && multiset(q') == multiset(r[1..]) + multiset{x}
    ensures StrictlySorted([r[0]] + q')
    ensures multiset([r[0]] + q') == multiset(r) + multiset{x}
  {
    assert r == [r[0]] + r[1..];
    forall j | 0 <= j < |q'| ensures Less(r[0], q'[j]) {
      assert q'[j] in multiset(q');
      if q'[j] != x {
        assert q'[j] in multiset(r[1..]);
        var k :| 0 <= k < |r[1..]| && r[1..][k] == q'[j];
        assert r[k + 1] == q'[j];
      }
    }
  }

  /** The elements of `s` in ascending order: `Array.from(s).sort()`. */
  method SortedList(s: set<string>) returns (r: seq<string>)
    ensures StrictlySorted(r)
    ensures forall x :: x in r <==> x in s
    ensures |r| == |s|
  {
    r := [];
    var rest := s;
    while rest != {}
      invariant StrictlySorted(r)
      invariant forall x :: x in s <==> x in r || x in rest
      invariant forall x :: x in r ==> x !in rest
      invariant |r| + |rest| == |s|
      decreases rest
    {
      var x :| x in rest;
      assert x !in r;
      r := Insert(r, x);
      assert forall y :: y in r <==> y in multiset(r);
      rest := rest - {x};
    }
  }
}
