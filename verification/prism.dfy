/** The client-side highlighter's glue around Prism: choosing a grammar
    name for a path, and the HTML escaping used when no grammar is loaded. */
module Prism {
  import opened Types
  import opened Strings
  import Records

  /** Extension (lower case) to Prism grammar name. */
  const ExtToLang: map<string, string> := map[
    "ts" := "typescript", "mts" := "typescript", "cts" := "typescript",
    "tsx" := "tsx",
    "js" := "javascript", "mjs" := "javascript", "cjs" := "javascript",
    "jsx" := "jsx",
    "css" := "css", "scss" := "scss", "sass" := "scss",
    "json" := "json",
    "md" := "markdown", "mdx" := "markdown",
    "yml" := "yaml", "yaml" := "yaml",
    "php" := "php",
    "sql" := "sql",
    "dockerfile" := "docker",
    "ini" := "ini", "conf" := "ini", "cfg" := "ini",
    "hbs" := "handlebars", "handlebars" := "handlebars",
    "html" := "markup", "htm" := "markup", "xml" := "markup", "svg" := "markup"
  ]

  /** The lower-cased text after the last '.' of the whole path. */
  function Ext(path: string): string
  {
    ToLower(LastPiece(path, '.'))
  }

  /** The lower-cased text after the last '/'. */
  function BaseName(path: string): string
  {
    ToLower(LastPiece(path, '/'))
  }

  /** `getLanguage` as written: the table is an object literal, so an
      extension naming an `Object.prototype` member finds that member
      rather than nothing. An own value is reported as `Own`. */
  function GetLanguageAsWritten(path: string): (r: Records.Lookup)
    ensures Ext(path) == "" ==> r == Records.Missing
    ensures Ext(path) != "" && BaseName(path) == "dockerfile" ==> r == Records.Own("docker")
    ensures r.Inherited? ==> Ext(path) in Records.PrototypeMembers
  {
    var ext := Ext(path);
    if ext == "" then Records.Missing
    else if BaseName(path) == "dockerfile" then Records.Own("docker")
    else Records.RecordGet(ExtToLang, ext)
  }

  /** Dockerfiles have their own entry in the table. */
  lemma DockerfileListed()
    ensures "dockerfile" in ExtToLang && ExtToLang["dockerfile"] == "docker"
  {
  }

  /** `getLanguage` with the table's own keys only: no language for an
      empty extension, "docker" for any file named Dockerfile, otherwise
      the table entry for the extension. */
  function GetLanguage(path: string): (r: Option<string>)
    ensures r.Some? ==> r.value in ExtToLang.Values
    ensures r.None? <==> Ext(path) == "" || (BaseName(path) != "dockerfile" && Ext(path) !in ExtToLang)
  {
    var ext := Ext(path);
    if ext == "" then None
    else if BaseName(path) == "dockerfile" then
      DockerfileListed();
      Some("docker")
    else if ext in ExtToLang then Some(ExtToLang[ext])
    else None
  }

  /** The corrected lookup agrees with the original wherever the original
      finds a string, and finds nothing exactly where the original finds
      nothing or an inherited member. */
  lemma GetLanguageAgrees(path: string)
    ensures GetLanguageAsWritten(path).Own? <==> GetLanguage(path).Some?
    ensures GetLanguageAsWritten(path).Own? ==> GetLanguage(path) == Some(GetLanguageAsWritten(path).value)
    ensures GetLanguageAsWritten(path).Inherited? ==> GetLanguage(path) == None
  {
  }

  lemma {:induction false} LastPieceNonEmpty(s: string, c: char)
    requires s != [] && s[|s| - 1] != c
    ensures LastPiece(s, c) != ""
  {
    LastPieceIsSuffix(s, c);
  }

  lemma ConstructorNotOwn()
    ensures "constructor" !in ExtToLang
  {
    assert forall k | k in ExtToLang :: |k| != 11;
  }

  lemma NoSlashIn(s: string)
    requires forall i :: 0 <= i < |s| ==> s[i] != '/'
    ensures '/' !in s
  {
  }

  /** A file named `x.constructor` gets an inherited member, not "no
      language". */
  lemma {:induction false} PrototypeExtension()
    ensures GetLanguageAsWritten("x.constructor") == Records.Inherited("constructor")
    ensures GetLanguage("x.constructor") == None
  {
    Records.ConstructorExtension();
    BaseNameOfConstructorFile();
    ConstructorNotOwn();
    assert Records.PrototypeMembers[0] == "constructor";
  }

  lemma BaseNameOfConstructorFile()
    ensures |BaseName("x.constructor")| == 13
  {
    NoSlashIn("x.constructor");
    LastPieceWhole("x.constructor", '/');
  }

  /** A file named Dockerfile, in any directory and in any letter case, is
      highlighted as Docker. */
  lemma {:induction false} DockerfileAnywhere(dir: string, name: string)
    requires '/' !in name && ToLower(name) == "dockerfile"
    ensures GetLanguage(dir + "/" + name) == Some("docker")
  {
    var path := dir + "/" + name;
    assert path == dir + ['/'] + name;
    LastPieceAfter(dir, name, '/');
    LastPieceWhole(name, '/');
    assert path[|path| - 1] == name[|name| - 1];
    assert LowerChar(name[|name| - 1]) == 'e';
    LastPieceNonEmpty(path, '.');
  }

  /** A name ending in a '.' has no extension, even a Dockerfile. */
  lemma {:induction false} TrailingDotHasNoLanguage(path: string)
    ensures GetLanguage(path + ".") == None
  {
    assert path + "." == path + ['.'] + "";
    LastPieceAfter(path, "", '.');
    assert Split("", '.') == [""];
  }

  /** A file whose name has an extension gets that extension's grammar. */
  lemma {:induction false} ExtensionDecides(dir: string, stem: string, ext: string)
    requires '/' !in stem && '/' !in ext && '.' !in ext
    requires ToLower(ext) in ExtToLang
    ensures GetLanguage(dir + "/" + stem + "." + ext) == Some(ExtToLang[ToLower(ext)])
  {
    ExtOfNamedFile(dir, stem, ext);
    BaseNameOfNamedFile(dir, stem, ext);
  }

  lemma {:induction false} ExtOfNamedFile(dir: string, stem: string, ext: string)
    requires '.' !in ext
    ensures Ext(dir + "/" + stem + "." + ext) == ToLower(ext)
  {
    assert dir + "/" + stem + "." + ext == (dir + "/" + stem) + ['.'] + ext;
    LastPieceAfter(dir + "/" + stem, ext, '.');
    LastPieceWhole(ext, '.');
  }

  lemma {:induction false} BaseNameOfNamedFile(dir: string, stem: string, ext: string)
    requires '/' !in stem && '/' !in ext
    ensures BaseName(dir + "/" + stem + "." + ext) != "dockerfile"
  {
    var path := dir + "/" + stem + "." + ext;
    assert path == dir + ['/'] + (stem + "." + ext);
    LastPieceAfter(dir, stem + "." + ext, '/');
    LastPieceWhole(stem + "." + ext, '/');
    var b := BaseName(path);
    assert b[|stem|] == LowerChar('.') == '.';
  }

  /** `s.replace(/ch/g, rep)`. */
  function ReplaceAll(s: string, ch: char, rep: string): (r: string)
    ensures forall x :: x in r ==> (x in s && x != ch) || x in rep
  {
    if s == [] then ""
    else (if s[0] == ch then rep else [s[0]]) + ReplaceAll(s[1..], ch, rep)
  }

  lemma {:induction false} ReplaceAllAppend(a: string, b: string, ch: char, rep: string)
    ensures ReplaceAll(a + b, ch, rep) == ReplaceAll(a, ch, rep) + ReplaceAll(b, ch, rep)
  {
    if a == [] {
      assert a + b == b;
    } else {
      assert (a + b)[1..] == a[1..] + b;
      ReplaceAllAppend(a[1..], b, ch, rep);
    }
  }

  lemma {:induction false} ReplaceAllAbsent(s: string, ch: char, rep: string)
    requires ch !in s
    ensures ReplaceAll(s, ch, rep) == s
  {
    if s != [] {
      ReplaceAllAbsent(s[1..], ch, rep);
    }
  }

  lemma ReplaceAllOne(c: char, ch: char, rep: string)
    ensures ReplaceAll([c], ch, rep) == if c == ch then rep else [c]
  {
    assert [c][1..] == [];
  }

  /** `escapeHtml`: the five global replacements, '&' first. */
  function EscapeHtml(text: string): string
  {
    var a := ReplaceAll(text, '&', "&amp;");
    var b := ReplaceAll(a, '<', "&lt;");
    var c := ReplaceAll(b, '>', "&gt;");
    var d := ReplaceAll(c, '"', "&quot;");
    ReplaceAll(d, '\'', "&#039;")
  }

  /** The entity each character becomes. */
  function Entity(c: char): string
  {
    match c
    case '&' => "&amp;"
    case '<' => "&lt;"
    case '>' => "&gt;"
    case '"' => "&quot;"
    case '\'' => "&#039;"
    case _ => [c]
  }

  /** Character-by-character escaping. */
  function EscapeChars(t: string): string
  {
    if t == [] then "" else Entity(t[0]) + EscapeChars(t[1..])
  }

  lemma {:induction false} EscapeHtmlAppend(a: string, b: string)
    ensures EscapeHtml(a + b) == EscapeHtml(a) + EscapeHtml(b)
  {
    var a1 := ReplaceAll(a, '&', "&amp;");
    var b1 := ReplaceAll(b, '&', "&amp;");
    ReplaceAllAppend(a, b, '&', "&amp;");
    var a2 := ReplaceAll(a1, '<', "&lt;");
    var b2 := ReplaceAll(b1, '<', "&lt;");
    ReplaceAllAppend(a1, b1, '<', "&lt;");
    var a3 := ReplaceAll(a2, '>', "&gt;");
    var b3 := ReplaceAll(b2, '>', "&gt;");
    ReplaceAllAppend(a2, b2, '>', "&gt;");
    var a4 := ReplaceAll(a3, '"', "&quot;");
    var b4 := ReplaceAll(b3, '"', "&quot;");
    ReplaceAllAppend(a3, b3, '"', "&quot;");
    ReplaceAllAppend(a4, b4, '\'', "&#039;");
  }

  /** Replacing a character that `s` does not hold leaves `s` alone, for
      each replacement after the first. */
  lemma {:induction false} LaterStepsKeep(s: string)
    requires '<' !in s && '>' !in s && '"' !in s && '\'' !in s
    ensures EscapeHtml(s) == ReplaceAll(s, '&', "&amp;")
  {
    var a := ReplaceAll(s, '&', "&amp;");
    ReplaceAllAbsent(a, '<', "&lt;");
    ReplaceAllAbsent(a, '>', "&gt;");
    ReplaceAllAbsent(a, '"', "&quot;");
    ReplaceAllAbsent(a, '\'', "&#039;");
  }

  /** The chained replacements escape a single character to its entity:
      no later replacement touches what an earlier one produced. */
  lemma {:induction false} EscapeHtmlChar(c: char)
    ensures EscapeHtml([c]) == Entity(c)
  {
    ReplaceAllOne(c, '&', "&amp;");
    ReplaceAllOne(c, '<', "&lt;");
    ReplaceAllOne(c, '>', "&gt;");
    ReplaceAllOne(c, '"', "&quot;");
    ReplaceAllOne(c, '\'', "&#039;");
    if c == '&' {
      LaterStepsKeep("&");
    } else if c == '<' {
      ReplaceAllAbsent("&lt;", '>', "&gt;");
      ReplaceAllAbsent("&lt;", '"', "&quot;");
      ReplaceAllAbsent("&lt;", '\'', "&#039;");
    } else if c == '>' {
      ReplaceAllAbsent("&gt;", '"', "&quot;");
      ReplaceAllAbsent("&gt;", '\'', "&#039;");
    } else if c == '"' {
      ReplaceAllAbsent("&quot;", '\'', "&#039;");
    }
  }

  /** The chain of replacements escapes each character independently. */
  lemma {:induction false} EscapeHtmlPerChar(t: string)
    ensures EscapeHtml(t) == EscapeChars(t)
  {
    if t == [] {
      assert EscapeHtml(t) == "";
    } else {
      assert t == [t[0]] + t[1..];
      EscapeHtmlAppend([t[0]], t[1..]);
      EscapeHtmlChar(t[0]);
      EscapeHtmlPerChar(t[1..]);
    }
  }

  /** Escaped text holds no character that could open a tag or close an
      attribute value. */
  lemma EscapeHtmlNoMarkup(t: string)
    ensures '<' !in EscapeHtml(t) && '>' !in EscapeHtml(t)
    ensures '"' !in EscapeHtml(t) && '\'' !in EscapeHtml(t)
  {
  }

  /** Decoding of the five entities, left to right. */
  function Unescape(s: string): string
  {
    if s == [] then ""
    else if s[0] != '&' then [s[0]] + Unescape(s[1..])
    else if StartsWith(s, "&amp;") then "&" + Unescape(s[5..])
    else if StartsWith(s, "&lt;") then "<" + Unescape(s[4..])
    else if StartsWith(s, "&gt;") then ">" + Unescape(s[4..])
    else if StartsWith(s, "&quot;") then "\"" + Unescape(s[6..])
    else if StartsWith(s, "&#039;") then "'" + Unescape(s[6..])
    else [s[0]] + Unescape(s[1..])
  }

  lemma {:induction false} UnescapeEntity(c: char, u: string)
    ensures Unescape(Entity(c) + u) == [c] + Unescape(u)
  {
    var s := Entity(c) + u;
    match c
    case '&' =>
      Front("&amp;", u);
    case '<' =>
      Front("&lt;", u);
      assert !StartsWith(s, "&amp;") by { assert s[1] == 'l'; }
    case '>' =>
      Front("&gt;", u);
      assert !StartsWith(s, "&amp;") && !StartsWith(s, "&lt;") by { assert s[1] == 'g'; }
    case '"' =>
      Front("&quot;", u);
      assert !StartsWith(s, "&amp;") && !StartsWith(s, "&lt;") && !StartsWith(s, "&gt;") by {
        assert s[1] == 'q';
      }
    case '\'' =>
      Front("&#039;", u);
      assert !StartsWith(s, "&amp;") && !StartsWith(s, "&lt;") && !StartsWith(s, "&gt;") &&
        !StartsWith(s, "&quot;") by {
        assert s[1] == '#';
      }
    case _ =>
      assert s[0] == c && s[1..] == u;
  }

  lemma Front(e: string, u: string)
    ensures StartsWith(e + u, e) && (e + u)[|e|..] == u
    ensures |e| >= 2 ==> (e + u)[1] == e[1]
  {
    assert (e + u)[..|e|] == e;
  }

  /** Escaping loses nothing: decoding gives the text back. */
  lemma {:induction false} UnescapeEscape(t: string)
    ensures Unescape(EscapeHtml(t)) == t
  {
    EscapeHtmlPerChar(t);
    UnescapeEscapeChars(t);
  }

  lemma {:induction false} UnescapeEscapeChars(t: string)
    ensures Unescape(EscapeChars(t)) == t
  {
    if t != [] {
      UnescapeEntity(t[0], EscapeChars(t[1..]));
      UnescapeEscapeChars(t[1..]);
      assert t == [t[0]] + t[1..];
    }
  }

  /** `highlight`: Prism's tokeniser when a grammar is loaded for the
      language, the escaped text otherwise. The grammar table and the
      tokeniser are parameters. */
  function Highlight<G>(code: string, language: string, grammars: string -> Option<G>,
                        tokenize: (string, G, string) -> string): (r: string)
    ensures grammars(language).None? ==> Unescape(r) == code && '<' !in r && '>' !in r
    ensures grammars(language).Some? ==> r == tokenize(code, grammars(language).value, language)
  {
    match grammars(language)
    case None =>
      UnescapeEscape(code);
      EscapeHtml(code)
    case Some(grammar) => tokenize(code, grammar, language)
  }
}
