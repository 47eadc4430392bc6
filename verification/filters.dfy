/** Which archive entries take part in a diff, and which of them are binary
    (src/lib/server/diff/filters.ts). */
module Filters {
  import opened Types
  import opened Strings
  import Records

  /** A path with any of these as a '/'-segment is left out. */
  const ExcludedDirs: seq<string> := [
    "node_modules", "vendor", ".git", ".svn", ".hg", "bower_components",
    ".idea", ".vscode", "__pycache__", ".cache"
  ]

  /** Lock files and operating-system artefacts, matched on the file name. */
  const ExcludedFiles: seq<string> := [
    "package-lock.json", "yarn.lock", "pnpm-lock.yaml", "composer.lock",
    "Gemfile.lock", "poetry.lock", "flake.lock", "Cargo.lock", "mix.lock",
    "pubspec.lock", "Podfile.lock", ".DS_Store", "Thumbs.db"
  ]

  /** Extensions (lower case) of files whose content is never shown. */
  const BinaryExtensions: seq<string> := [
    "png", "jpg", "jpeg", "gif", "ico", "webp", "avif", "svg", "bmp", "tiff",
    "woff", "woff2", "ttf", "eot", "otf", "pdf", "zip", "tar", "gz", "rar",
    "7z", "exe", "dll", "so", "dylib", "bin", "dat", "db", "sqlite", "mp3",
    "mp4", "wav", "ogg", "webm", "avi", "mov", "flv", "swf", "psd", "ai",
    "eps", "class", "jar", "war", "pyc", "pyo", "o", "a", "lib", "obj"
  ]

  /** The five minified-file patterns, each anchored at the end of the name
      and case-sensitive, written out as the suffixes they match. */
  const MinifiedSuffixes: seq<string> := [
    ".min.js", ".min.css", ".bundle.js", "-min.js", ".prod.js",
    ".js.map", ".mjs.map", ".cjs.map", ".ts.map", ".mts.map", ".cts.map", ".css.map"
  ]

  /** Whether `x` is an entry of the table `xs`. The tables are walked
      entry by entry, so that a proof about one path unfolds only the
      entries it needs. */
  predicate Listed(x: string, xs: seq<string>)
  {
    xs != [] && (x == xs[0] || Listed(x, xs[1..]))
  }

  lemma {:induction false} ListedMeansIn(x: string, xs: seq<string>)
    ensures Listed(x, xs) <==> x in xs
  {
    if xs != [] {
      ListedMeansIn(x, xs[1..]);
      assert xs == [xs[0]] + xs[1..];
    }
  }

  /** Whether `s` ends with one of `suffixes`. */
  predicate EndsWithAny(s: string, suffixes: seq<string>)
  {
    suffixes != [] && (EndsWith(s, suffixes[0]) || EndsWithAny(s, suffixes[1..]))
  }

  lemma {:induction false} EndsWithAnyMeans(s: string, suffixes: seq<string>)
    ensures EndsWithAny(s, suffixes) <==> exists i :: 0 <= i < |suffixes| && EndsWith(s, suffixes[i])
  {
    if suffixes != [] {
      EndsWithAnyMeans(s, suffixes[1..]);
      if EndsWithAny(s, suffixes[1..]) {
        var i :| 0 <= i < |suffixes[1..]| && EndsWith(s, suffixes[1..][i]);
        assert EndsWith(s, suffixes[i + 1]);
      }
      if exists i :: 0 <= i < |suffixes| && EndsWith(s, suffixes[i]) {
        var i :| 0 <= i < |suffixes| && EndsWith(s, suffixes[i]);
        if i > 0 {
          assert EndsWith(s, suffixes[1..][i - 1]);
        }
      }
    }
  }

  /** Whether a file name matches one of the minified patterns. */
  predicate IsMinifiedName(fileName: string)
  {
    EndsWithAny(fileName, MinifiedSuffixes)
  }

  /** Language names for lower-cased extensions. */
  const LanguageTable: map<string, string> := map[
    "js" := "javascript", "mjs" := "javascript", "cjs" := "javascript",
    "jsx" := "jsx", "ts" := "typescript", "tsx" := "tsx",
    "mts" := "typescript", "cts" := "typescript", "json" := "json",
    "php" := "php", "css" := "css", "scss" := "scss", "sass" := "sass",
    "less" := "less", "html" := "html", "htm" := "html", "xml" := "xml",
    "svg" := "xml", "md" := "markdown", "mdx" := "mdx", "yaml" := "yaml",
    "yml" := "yaml", "toml" := "toml", "ini" := "ini", "sh" := "bash",
    "bash" := "bash", "zsh" := "bash", "py" := "python", "rb" := "ruby",
    "go" := "go", "rs" := "rust", "java" := "java", "kt" := "kotlin",
    "swift" := "swift", "c" := "c", "cpp" := "cpp", "cc" := "cpp",
    "h" := "c", "hpp" := "cpp", "cs" := "csharp", "sql" := "sql",
    "vue" := "vue", "svelte" := "svelte"
  ]

  datatype FilterResult = FilterResult(included: bool, isBinary: bool, isMinified: bool)

  /** The last '/'-segment of a path. */
  function FileName(path: string): string
  {
    LastPiece(path, '/')
  }

  /** The lower-cased text after the last '.' of a file name (the whole
      name when it has no '.'). */
  function Extension(fileName: string): string
  {
    ToLower(LastPiece(fileName, '.'))
  }

  predicate HasExcludedSegment(path: string)
  {
    exists i :: 0 <= i < |Split(path, '/')| && Listed(Split(path, '/')[i], ExcludedDirs)
  }

  /** Classifies an archive path: excluded paths carry no flags; included
      ones are binary by extension and minified by name. */
  function ShouldInclude(path: string): (r: FilterResult)
    ensures !r.included ==> !r.isBinary && !r.isMinified
    ensures r.included <==> !HasExcludedSegment(path) && !Listed(FileName(path), ExcludedFiles)
    ensures r.included ==> r.isBinary == Listed(Extension(FileName(path)), BinaryExtensions)
    ensures r.included ==> r.isMinified == IsMinifiedName(FileName(path))
  {
    var fileName := FileName(path);
    if HasExcludedSegment(path) then
      FilterResult(false, false, false)
    else if Listed(fileName, ExcludedFiles) then
      FilterResult(false, false, false)
    else
      FilterResult(true, Listed(Extension(fileName), BinaryExtensions), IsMinifiedName(fileName))
  }

  /** A piece between separators (or the ends of the string) is one of
      the pieces `Split` returns. */
  lemma {:induction false} SegmentIsPiece(before: string, seg: string, after: string, c: char)
    requires c !in seg
    requires before == [] || before[|before| - 1] == c
    requires after == [] || after[0] == c
    ensures seg in Split(before + seg + after, c)
  {
    SegmentHeads(seg, after, c);
    if before == [] {
      assert before + seg + after == seg + after;
    } else {
      var b := before[..|before| - 1];
      assert before + seg + after == b + [c] + (seg + after);
      SplitAround(b, seg + after, c);
      assert Split(before + seg + after, c)[|Split(b, c)|] == Split(seg + after, c)[0];
    }
  }

  /** A piece followed by a separator or the end is the first piece. */
  lemma {:induction false} SegmentHeads(seg: string, after: string, c: char)
    requires c !in seg
    requires after == [] || after[0] == c
    ensures Split(seg + after, c)[0] == seg
  {
    SplitNoSeparator(seg, c);
    if after == [] {
      assert seg + after == seg;
    } else {
      assert seg + after == seg + [c] + after[1..];
      SplitAround(seg, after[1..], c);
    }
  }

  /** An excluded directory name anywhere in a path, as a directory or as
      the file name itself, excludes the path whatever surrounds it. */
  lemma {:induction false} ExcludedDirAnywhere(before: string, dir: string, after: string)
    requires dir in ExcludedDirs
    requires before == [] || before[|before| - 1] == '/'
    requires after == [] || after[0] == '/'
    ensures !ShouldInclude(before + dir + after).included
  {
    assert '/' !in dir;
    ListedMeansIn(dir, ExcludedDirs);
    SegmentIsPiece(before, dir, after, '/');
  }

  /** A lock file is excluded in any directory. */
  lemma {:induction false} LockFileExcluded(dir: string, name: string)
    requires name in ExcludedFiles
    ensures !ShouldInclude(dir + "/" + name).included
    ensures !ShouldInclude(name).included
  {
    ExcludedFileHasNoSlash(name);
    LastPieceAfter(dir, name, '/');
    LastPieceWhole(name, '/');
    assert dir + "/" + name == dir + ['/'] + name;
    ExcludedFileName(dir + "/" + name);
    ExcludedFileName(name);
  }

  lemma ExcludedFileHasNoSlash(name: string)
    requires name in ExcludedFiles
    ensures '/' !in name
  {
  }

  /** A path whose file name is a listed file is excluded. */
  lemma ExcludedFileName(path: string)
    requires FileName(path) in ExcludedFiles
    ensures !ShouldInclude(path).included
  {
    ListedMeansIn(FileName(path), ExcludedFiles);
  }

  /** The binary flag of an included path depends on the file name's
      extension only, case-insensitively: a name ending in ".PNG" or ".png"
      in any directory is binary. */
  lemma {:induction false} BinaryByExtension(dir: string, stem: string, ext: string)
    requires '/' !in stem && '/' !in ext && '.' !in ext
    requires ToLower(ext) in BinaryExtensions
    requires ShouldInclude(dir + "/" + stem + "." + ext).included
    ensures ShouldInclude(dir + "/" + stem + "." + ext).isBinary
  {
    var name := stem + "." + ext;
    assert '/' !in name;
    assert dir + "/" + stem + "." + ext == dir + ['/'] + name;
    LastPieceAfter(dir, name, '/');
    LastPieceWhole(name, '/');
    assert name == stem + ['.'] + ext;
    LastPieceAfter(stem, ext, '.');
    LastPieceWhole(ext, '.');
    ListedMeansIn(ToLower(ext), BinaryExtensions);
  }

  /** A file name without a '.' is its own extension: a file called "o"
      or "PNG" is binary. */
  lemma {:induction false} DotlessNameIsExtension(name: string)
    requires '/' !in name && '.' !in name
    requires ToLower(name) in BinaryExtensions
    requires ShouldInclude(name).included
    ensures ShouldInclude(name).isBinary
  {
    LastPieceWhole(name, '/');
    LastPieceWhole(name, '.');
    ListedMeansIn(ToLower(name), BinaryExtensions);
  }

  /** The number of zero bytes in `s`. */
  function ZeroCount(s: seq<byte>): nat
  {
    if s == [] then 0
    else ZeroCount(s[..|s| - 1]) + (if s[|s| - 1] == 0 then 1 else 0)
  }

  /** The content sniff: two or more zero bytes among the first 8000. */
  predicate SniffsBinary(content: seq<byte>)
  {
    ZeroCount(content[..if |content| < 8000 then |content| else 8000]) >= 2
  }

  /** The content sniff as the source runs it: a scan of at most 8000
      bytes that stops at the second zero byte. */
  method IsBinaryContent(content: seq<byte>) returns (r: bool)
    ensures r == SniffsBinary(content)
  {
    var checkLength := if |content| < 8000 then |content| else 8000;
    var nullCount := 0;
    for i := 0 to checkLength
      invariant nullCount == ZeroCount(content[..i])
      invariant nullCount <= 1
    {
      assert content[..i + 1][..i] == content[..i];
      if content[i] == 0 {
        nullCount := nullCount + 1;
        if nullCount > 1 {
          assert content[..checkLength] == content[..i + 1] + content[i + 1..checkLength];
          ZeroCountAppend(content[..i + 1], content[i + 1..checkLength]);
          return true;
        }
      }
    }
    return false;
  }

  lemma {:induction false} ZeroCountAppend(a: seq<byte>, b: seq<byte>)
    ensures ZeroCount(a + b) == ZeroCount(a) + ZeroCount(b)
  {
    if b != [] {
      ZeroCountAppend(a, b[..|b| - 1]);
      assert (a + b)[..|a + b| - 1] == a + b[..|b| - 1];
    } else {
      assert a + b == a;
    }
  }

  /** Bytes after the first 8000 never change the sniff. */
  lemma {:induction false} SniffIgnoresTail(head: seq<byte>, tail: seq<byte>)
    requires |head| >= 8000
    ensures SniffsBinary(head + tail) == SniffsBinary(head)
  {
    assert (head + tail)[..8000] == head[..8000];
  }

  /** Two zero bytes anywhere in the first 8000 make the content binary,
      whatever its extension. */
  lemma {:induction false} TwoZerosSniffBinary(content: seq<byte>, i: nat, j: nat)
    requires i < j < |content| && j < 8000
    requires content[i] == 0 && content[j] == 0
    ensures SniffsBinary(content)
  {
    var n := if |content| < 8000 then |content| else 8000;
    var p := content[..n];
    assert p == p[..i] + [p[i]] + p[i + 1..j] + [p[j]] + p[j + 1..];
    ZeroCountAppend(p[..i] + [p[i]] + p[i + 1..j] + [p[j]], p[j + 1..]);
    ZeroCountAppend(p[..i] + [p[i]] + p[i + 1..j], [p[j]]);
    ZeroCountAppend(p[..i] + [p[i]], p[i + 1..j]);
    ZeroCountAppend(p[..i], [p[i]]);
    assert ZeroCount([p[i]]) == 1 by { assert [p[i]][..0] == []; }
    assert ZeroCount([p[j]]) == 1 by { assert [p[j]][..0] == []; }
  }

  /** `detectLanguage` as written: the table is an object literal, so an
      extension naming an `Object.prototype` member finds that member. */
  function DetectLanguageAsWritten(path: string): (r: Records.Lookup)
    ensures ToLower(LastPiece(path, '.')) == "" ==> r == Records.Missing
    ensures r.Inherited? ==> ToLower(LastPiece(path, '.')) in Records.PrototypeMembers
  {
    var extension := ToLower(LastPiece(path, '.'));
    if extension == "" then Records.Missing else Records.RecordGet(LanguageTable, extension)
  }

  /** The language of a path: the table entry for the lower-cased text
      after the last '.' of the whole path, absent when that text is empty
      or not one of the table's own keys. */
  function DetectLanguage(path: string): (r: Option<string>)
    ensures r.Some? ==> r.value in LanguageTable.Values
    ensures r.Some? <==> ToLower(LastPiece(path, '.')) != "" && ToLower(LastPiece(path, '.')) in LanguageTable
  {
    var extension := ToLower(LastPiece(path, '.'));
    if extension != "" && extension in LanguageTable then Some(LanguageTable[extension]) else None
  }

  /** The extension is taken from the whole path, so a dot in a directory
      name decides the language of a file without one. */
  lemma {:induction false} DetectLanguageOfDottedDirectory(dir: string, ext: string, name: string)
    requires '.' !in ext && '.' !in name
    requires ToLower(ext + "/" + name) !in LanguageTable
    ensures DetectLanguage(dir + "." + ext + "/" + name) == None
  {
    assert dir + "." + ext + "/" + name == dir + ['.'] + (ext + "/" + name);
    LastPieceAfter(dir, ext + "/" + name, '.');
    LastPieceWhole(ext + "/" + name, '.');
  }

  /** The own-key lookup agrees with the original wherever the original
      finds a string, and finds nothing where the original finds nothing
      or an inherited member. */
  lemma DetectLanguageAgrees(path: string)
    ensures DetectLanguageAsWritten(path).Own? <==> DetectLanguage(path).Some?
    ensures DetectLanguageAsWritten(path).Own? ==> DetectLanguage(path) == Some(DetectLanguageAsWritten(path).value)
  {
  }

  lemma ConstructorNotLanguage()
    ensures "constructor" !in LanguageTable
  {
  }

  /** A file named `x.constructor` gets an inherited member, not "no
      language". */
  lemma {:induction false} DetectPrototypeExtension()
    ensures DetectLanguageAsWritten("x.constructor") == Records.Inherited("constructor")
    ensures DetectLanguage("x.constructor") == None
  {
    Records.ConstructorExtension();
    ConstructorNotLanguage();
    assert Records.PrototypeMembers[0] == "constructor";
  }
}
