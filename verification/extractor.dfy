/** Turning a package archive into a file map
    (src/lib/server/archive/extractor.ts): the ustar header walk over a
    decompressed tarball, the filter over the entries of an unzipped zip,
    and the size check in front of both. Decompression and UTF-8 decoding
    are done by library code and are parameters here. */
module Extractor {
  import opened Types
  import opened Strings
  import Filters
  import opened Numbers

  const MaxArchiveSize: int := 15 * 1024 * 1024
  const MaxFiles: int := 500
  const MaxFileSize: int := 500 * 1024
  const BlockSize: int := 512

  /** The path filter the extractor consults for every entry:
      `Filters.ShouldInclude` when the archive is extracted. */
  type Filter = string -> Filters.FilterResult

  /** The bytes before the first zero byte (all of them if there is none). */
  function UntilNul(bs: seq<byte>): (r: seq<byte>)
    ensures r <= bs
    ensures 0 !in r
    ensures |r| < |bs| ==> bs[|r|] == 0
  {
    var i := IndexOf(bs, 0 as byte);
    if i >= 0 then bs[..i] else bs
  }

  /** The entry name of a 512-byte ustar header: the name field (bytes
      0-99) up to its first NUL, behind the prefix field (bytes 345-499)
      and a '/' when the prefix decodes to a non-empty string. */
  function HeaderName(header: seq<byte>, decode: seq<byte> -> string): string
    requires |header| == BlockSize
  {
    var name := decode(UntilNul(header[..100]));
    var prefix := decode(UntilNul(header[345..500]));
    if prefix != "" then prefix + "/" + name else name
  }

  /** A header whose name and prefix fields hold NUL-terminated (or
      field-filling) byte strings yields exactly those byte strings. */
  lemma {:induction false} HeaderNameOfFields(header: seq<byte>, decode: seq<byte> -> string, n: seq<byte>, p: seq<byte>)
    requires |header| == BlockSize
    requires |n| <= 100 && 0 !in n && header[..|n|] == n && (|n| < 100 ==> header[|n|] == 0)
    requires |p| <= 155 && 0 !in p && header[345..345 + |p|] == p && (|p| < 155 ==> header[345 + |p|] == 0)
    ensures HeaderName(header, decode) ==
      if decode(p) != "" then decode(p) + "/" + decode(n) else decode(n)
  {
    FieldUntilNul(header[..100], n);
    FieldUntilNul(header[345..500], p);
  }

  lemma {:induction false} FieldUntilNul(field: seq<byte>, v: seq<byte>)
    requires |v| <= |field| && 0 !in v && field[..|v|] == v && (|v| < |field| ==> field[|v|] == 0)
    ensures UntilNul(field) == v
  {
    var r := UntilNul(field);
    assert forall k :: 0 <= k < |r| ==> r[k] == field[k];
    assert forall k :: 0 <= k < |v| ==> v[k] == field[k];
  }

  function StripPackagePrefix(name: string): string
  {
    if StartsWith(name, "package/") then name[8..] else name
  }

  /** `/^[^/]+\//`: drops a non-empty first path component and its '/'. */
  function StripFirstComponent(name: string): string
  {
    var i := IndexOf(name, '/');
    if i > 0 then name[i + 1..] else name
  }

  /** Normalised tar entry name: a literal leading "package/" goes, then
      one more leading component. */
  function NormalizeTarName(name: string): string
  {
    StripFirstComponent(StripPackagePrefix(name))
  }

  /** Exactly one non-empty leading component is removed. */
  lemma {:induction false} StripsOneComponent(root: string, rest: string)
    requires root != "" && '/' !in root
    ensures StripFirstComponent(root + "/" + rest) == rest
  {
    var s := root + "/" + rest;
    var i := IndexOf(s, '/');
    assert s[|root|] == '/';
    assert s[..|root|] == root;
    assert forall k :: 0 <= k < |root| ==> s[k] == root[k];
    assert i == |root|;
    assert s[i + 1..] == rest;
  }

  /** Examples of normalised names: the npm "package/" root goes, and
      with it the next component. */
  lemma {:induction false} NormalizeNpmNested()
    ensures NormalizeTarName("package/lib/a.js") == "a.js"
  {
    assert StartsWith("package/lib/a.js", "package/");
    assert "package/lib/a.js"[8..] == "lib" + "/" + "a.js";
    StripsOneComponent("lib", "a.js");
  }

  /** Inside an npm tarball the first directory below "package/" goes
      too, so `package/lib/a.js` and `package/src/a.js` both become `a.js`
      and the later entry replaces the earlier one. */
  lemma {:induction false} NormalizeNpmDropsDirectory(dir: string, rest: string)
    requires dir != "" && '/' !in dir
    ensures NormalizeTarName("package/" + dir + "/" + rest) == rest
  {
    var name := "package/" + dir + "/" + rest;
    assert name[..8] == "package/";
    assert name[8..] == dir + "/" + rest;
    StripsOneComponent(dir, rest);
  }

  lemma {:induction false} NormalizeNpmTopLevel()
    ensures NormalizeTarName("package/a.js") == "a.js"
  {
    assert StartsWith("package/a.js", "package/");
    assert "package/a.js"[8..] == "a.js";
    assert IndexOf("a.js", '/') == -1;
  }

  lemma {:induction false} NormalizeOtherRoot()
    ensures NormalizeTarName("root/x/y") == "x/y"
  {
    assert !StartsWith("root/x/y", "package/") by {
      assert "root/x/y"[..8][0] == 'r';
    }
    assert IndexOf("root/x/y", '/') == 4;
  }

  predicate IsOctalDigit(ch: char)
  {
    '0' <= ch <= '7'
  }

  /** The longest prefix of `s` made of octal digits. */
  function OctalDigits(s: string): (r: string)
    ensures r <= s
    ensures forall i :: 0 <= i < |r| ==> IsOctalDigit(r[i])
    ensures |r| < |s| ==> !IsOctalDigit(s[|r|])
  {
    if s != [] && IsOctalDigit(s[0]) then [s[0]] + OctalDigits(s[1..]) else []
  }

  function OctalValue(ds: string): nat
    requires forall i :: 0 <= i < |ds| ==> IsOctalDigit(ds[i])
  {
    if ds == [] then 0
    else
      var last := ds[|ds| - 1];
      assert IsOctalDigit(last);
      OctalValue(ds[..|ds| - 1]) * 8 + (last as int - '0' as int)
  }

  /** `parseInt(s, 8)`: leading white space, an optional sign, then the
      longest run of octal digits; `None` stands for NaN (no digits). */
  function ParseOctal(s: string): Option<int>
  {
    ParseSigned(TrimStart(s))
  }

  function ParseSigned(t: string): Option<int>
  {
    if t != [] && t[0] == '-' then
      match ParseDigits(t[1..])
      case None => None
      case Some(v) => Some(-(v as int))
    else if t != [] && t[0] == '+' then ParseDigits(t[1..])
    else ParseDigits(t)
  }

  function ParseDigits(b: string): Option<nat>
  {
    var digits := OctalDigits(b);
    if digits == [] then None else Some(OctalValue(digits))
  }

  /** The entry size: `parseInt` of the trimmed size field (bytes
      124-135), or 0 when that is NaN. */
  function HeaderSize(header: seq<byte>, decode: seq<byte> -> string): int
    requires |header| == BlockSize
  {
    match ParseOctal(Trim(decode(header[124..136])))
    case None => 0
    case Some(v) => v
  }

  function OctalDigit(d: nat): char
    requires d < 8
  {
    ('0' as int + d) as char
  }

  /** The octal numeral of `n`, as a tar writer puts it in the size field. */
  function OctalString(n: nat): (r: string)
    ensures r != [] && forall i :: 0 <= i < |r| ==> IsOctalDigit(r[i])
  {
    if n < 8 then [OctalDigit(n)] else OctalString(n / 8) + [OctalDigit(n % 8)]
  }

  lemma {:induction false} OctalValueOfString(n: nat)
    ensures OctalValue(OctalString(n)) == n
  {
    if n >= 8 {
      OctalValueOfString(n / 8);
      var s := OctalString(n);
      assert s[..|s| - 1] == OctalString(n / 8);
    } else {
      assert OctalString(n)[..0] == [];
    }
  }

  lemma {:induction false} OctalValueLeadingZeros(zeros: string, ds: string)
    requires forall i :: 0 <= i < |zeros| ==> zeros[i] == '0'
    requires forall i :: 0 <= i < |ds| ==> IsOctalDigit(ds[i])
    ensures OctalValue(zeros + ds) == OctalValue(ds)
  {
    if ds == [] {
      assert zeros + ds == zeros;
      if zeros != [] {
        assert zeros[..|zeros| - 1] + [] == zeros[..|zeros| - 1];
        OctalValueLeadingZeros(zeros[..|zeros| - 1], []);
      }
    } else {
      OctalValueLeadingZeros(zeros, ds[..|ds| - 1]);
      assert (zeros + ds)[..|zeros + ds| - 1] == zeros + ds[..|ds| - 1];
    }
  }

  lemma {:induction false} OctalDigitsStopAt(ds: string, tail: string)
    requires forall i :: 0 <= i < |ds| ==> IsOctalDigit(ds[i])
    requires tail == [] || !IsOctalDigit(tail[0])
    ensures OctalDigits(ds + tail) == ds
  {
    if ds != [] {
      assert (ds + tail)[1..] == ds[1..] + tail;
      OctalDigitsStopAt(ds[1..], tail);
      assert ds == [ds[0]] + ds[1..];
    } else {
      assert ds + tail == tail;
    }
  }

  /** A size field written the usual way (zero-padded octal digits ended
      by NUL or space) parses back to the size. */
  lemma {:induction false} SizeFieldRoundTrip(zeros: string, n: nat, tail: string)
    requires forall i :: 0 <= i < |zeros| ==> zeros[i] == '0'
    requires tail == [] || !IsOctalDigit(tail[0])
    ensures ParseOctal(zeros + OctalString(n) + tail) == Some(n)
  {
    var ds := zeros + OctalString(n);
    var s := ds + tail;
    assert forall i :: 0 <= i < |ds| ==> IsOctalDigit(ds[i]);
    assert s == zeros + OctalString(n) + tail;
    assert s[0] == ds[0] && IsOctalDigit(s[0]);
    assert !IsSpace(s[0]);
    assert TrimStart(s) == s;
    OctalDigitsStopAt(ds, tail);
    OctalValueLeadingZeros(zeros, OctalString(n));
    OctalValueOfString(n);
    assert ParseDigits(s) == Some(n);
  }

  lemma {:induction false} ParseMinus(s: string, v: nat)
    requires s != [] && s[0] == '-' && ParseDigits(s[1..]) == Some(v)
    ensures ParseSigned(s) == Some(-(v as int))
  {
  }

  lemma {:induction false} OctalThousand()
    ensures OctalValue("1000") == 512
  {
    OctalValueOfString(512);
    assert OctalString(8) == "10";
    assert OctalString(64) == "100";
    assert OctalString(512) == "1000";
  }

  /** A size field reading "-1000" is parsed as -512. */
  lemma {:induction false} NegativeSizeField(header: seq<byte>, decode: seq<byte> -> string)
    requires |header| == BlockSize
    requires decode(header[124..136]) == "-1000"
    ensures HeaderSize(header, decode) == -512
  {
    var s := "-1000";
    assert Trim(s) == s by {
      assert !IsSpace(s[0]) && !IsSpace(s[|s| - 1]);
    }
    assert TrimStart(s) == s;
    assert ParseDigits("1000") == Some(512) by {
      OctalDigitsStopAt("1000", []);
      assert "1000" + [] == "1000";
      OctalThousand();
    }
    assert s[1..] == "1000";
    ParseMinus(s, 512);
  }

  /** `data.slice(start, end)`: negative positions count from the end, and
      an end at or before the start gives nothing. */
  function JsSlice(data: seq<byte>, start: int, end: int): (r: seq<byte>)
    ensures |r| <= |data|
    ensures 0 <= start <= end <= |data| ==> r == data[start..end]
  {
    var from := RelativeIndex(|data|, start);
    var to := RelativeIndex(|data|, end);
    if from < to then data[from..to] else []
  }

  function RelativeIndex(len: nat, x: int): (r: nat)
    ensures r <= len
  {
    if x < 0 then (if len + x < 0 then 0 else len + x) else if x > len then len else x
  }

  datatype Header = Header(name: string, size: int, typeFlag: byte)

  function ParseHeader(header: seq<byte>, decode: seq<byte> -> string): Header
    requires |header| == BlockSize
  {
    Header(NormalizeTarName(HeaderName(header, decode)), HeaderSize(header, decode), header[156])
  }

  /** Type flag NUL or '0' (a regular file), an included non-directory
      name, and a size within the per-file cap. */
  predicate Accepts(h: Header, filter: Filter)
  {
    (h.typeFlag == 0 || h.typeFlag == 48) &&
    filter(h.name).included && h.name != "" && !EndsWith(h.name, "/") &&
    h.size <= MaxFileSize
  }

  /** The entry stored for an accepted archive member. */
  function MakeEntry(path: string, size: int, content: seq<byte>, decode: seq<byte> -> string, filter: Filter): FileEntry
  {
    var result := filter(path);
    var isBinary := result.isBinary || Filters.SniffsBinary(content);
    FileEntry(path, if isBinary then None else Some(decode(content)), isBinary, result.isMinified, size)
  }

  /** What every stored entry satisfies. */
  predicate EntryOk(key: string, e: FileEntry, filter: Filter)
  {
    e.path == key && key != "" && !EndsWith(key, "/") &&
    filter(key).included &&
    e.isMinified == filter(key).isMinified &&
    (filter(key).isBinary ==> e.isBinary) &&
    (e.isBinary <==> e.content.None?) &&
    e.size <= MaxFileSize
  }

  predicate AllEntriesOk(files: map<string, FileEntry>, filter: Filter)
  {
    forall k :: k in files ==> EntryOk(k, files[k], filter)
  }

  predicate AllZero(bs: seq<byte>)
  {
    forall i :: 0 <= i < |bs| ==> bs[i] == 0
  }

  /** The map after the header at `offset` has been looked at. */
  function Visit(data: seq<byte>, decode: seq<byte> -> string, filter: Filter, offset: nat, files: map<string, FileEntry>): map<string, FileEntry>
    requires offset + BlockSize <= |data|
  {
    var h := ParseHeader(data[offset..offset + BlockSize], decode);
    if Accepts(h, filter) then
      files[h.name := MakeEntry(h.name, h.size, JsSlice(data, offset + BlockSize, offset + BlockSize + h.size), decode, filter)]
    else files
  }

  /** Where the next header starts: after this header and the data blocks
      of a non-negative size. */
  function NextOffset(offset: int, size: int): (r: int)
    ensures r >= offset + BlockSize
  {
    offset + BlockSize + CeilDiv(if size < 0 then 0 else size, BlockSize) * BlockSize
  }

  /** The advance as the source writes it, with the size as parsed. */
  function NextOffsetAsWritten(offset: int, size: int): int
  {
    offset + BlockSize + CeilDiv(size, BlockSize) * BlockSize
  }

  /** The loop's exit test: the last block reached, the file cap reached,
      or an all-zero header. */
  predicate Stops(data: seq<byte>, offset: nat, files: map<string, FileEntry>)
  {
    offset >= |data| - BlockSize || |files| >= MaxFiles || AllZero(data[offset..offset + BlockSize])
  }

  /** The header walk from `offset` with `files` collected so far. */
  function TarScan(data: seq<byte>, decode: seq<byte> -> string, filter: Filter, offset: nat, files: map<string, FileEntry>): map<string, FileEntry>
    decreases |data| - offset
  {
    if Stops(data, offset, files) then files
    else
      var size := HeaderSize(data[offset..offset + BlockSize], decode);
      TarScan(data, decode, filter, NextOffset(offset, size), Visit(data, decode, filter, offset, files))
  }

  /** Walks the 512-byte headers of a decompressed tarball and collects
      the accepted regular files. */
  method ExtractTar(data: seq<byte>, decode: seq<byte> -> string, filter: Filter) returns (files: map<string, FileEntry>)
    ensures files == TarScan(data, decode, filter, 0, map[])
    ensures |files| <= MaxFiles
    ensures AllEntriesOk(files, filter)
  {
    files := map[];
    var offset: nat := 0;
    while offset < |data| - BlockSize
      invariant TarScan(data, decode, filter, offset, files) == TarScan(data, decode, filter, 0, map[])
      decreases |data| - offset
    {
      if |files| >= MaxFiles {
        break;
      }
      var header := data[offset..offset + BlockSize];
      if forall i | 0 <= i < BlockSize :: header[i] == 0 {
        break;
      }
      TarScanStep(data, decode, filter, offset, files);
      var size;
      files, size := ReadMember(data, decode, filter, offset, files);
      offset := NextOffset(offset, size);
    }
    TarScanCapped(data, decode, filter, 0, map[]);
    TarScanEntriesOk(data, decode, filter, 0, map[]);
  }

  lemma {:induction false} TarScanStep(data: seq<byte>, decode: seq<byte> -> string, filter: Filter, offset: nat, files: map<string, FileEntry>)
    requires !Stops(data, offset, files)
    ensures TarScan(data, decode, filter, offset, files) ==
      TarScan(data, decode, filter, NextOffset(offset, HeaderSize(data[offset..offset + BlockSize], decode)),
              Visit(data, decode, filter, offset, files))
  {
  }

  /** The body of the header loop: reads the header at `offset` and
      stores its member when it is accepted. */
  method ReadMember(data: seq<byte>, decode: seq<byte> -> string, filter: Filter, offset: nat, files: map<string, FileEntry>)
    returns (files': map<string, FileEntry>, size: int)
    requires offset + BlockSize <= |data|
    ensures files' == Visit(data, decode, filter, offset, files)
    ensures size == HeaderSize(data[offset..offset + BlockSize], decode)
  {
    var header := data[offset..offset + BlockSize];
    var name := HeaderName(header, decode);
    name := NormalizeTarName(name);
    size := HeaderSize(header, decode);
    var typeFlag := header[156];
    ghost var h := ParseHeader(header, decode);
    assert h == Header(name, size, typeFlag);
    files' := files;
    if typeFlag == 0 || typeFlag == 48 {
      var filterResult := filter(name);
      if filterResult.included && name != "" && !EndsWith(name, "/") && size <= MaxFileSize {
        var content := JsSlice(data, offset + BlockSize, offset + BlockSize + size);
        var sniffed := Filters.IsBinaryContent(content);
        var isBinary := filterResult.isBinary || sniffed;
        var entry := FileEntry(name, if isBinary then None else Some(decode(content)),
                               isBinary, filterResult.isMinified, size);
        assert entry == MakeEntry(name, size, content, decode, filter);
        files' := files[name := entry];
      }
    }
  }

  /** The map never grows past the file cap. */
  lemma {:induction false} TarScanCapped(data: seq<byte>, decode: seq<byte> -> string, filter: Filter, offset: nat, files: map<string, FileEntry>)
    requires |files| <= MaxFiles
    ensures |TarScan(data, decode, filter, offset, files)| <= MaxFiles
    decreases |data| - offset
  {
    if !Stops(data, offset, files) {
      var size := HeaderSize(data[offset..offset + BlockSize], decode);
      var v := Visit(data, decode, filter, offset, files);
      assert |v| <= |files| + 1 by {
        assert v.Keys <= files.Keys + {ParseHeader(data[offset..offset + BlockSize], decode).name};
      }
      TarScanCapped(data, decode, filter, NextOffset(offset, size), v);
    }
  }

  lemma {:induction false} MakeEntryOk(path: string, size: int, content: seq<byte>, decode: seq<byte> -> string, filter: Filter)
    requires filter(path).included && path != "" && !EndsWith(path, "/") && size <= MaxFileSize
    ensures EntryOk(path, MakeEntry(path, size, content, decode, filter), filter)
  {
  }

  /** Every stored entry is keyed by its own path, passed the filter, is
      binary when its extension says so, has content exactly when it is
      not binary, and is within the size cap. */
  lemma {:induction false} TarScanEntriesOk(data: seq<byte>, decode: seq<byte> -> string, filter: Filter, offset: nat, files: map<string, FileEntry>)
    requires AllEntriesOk(files, filter)
    ensures AllEntriesOk(TarScan(data, decode, filter, offset, files), filter)
    decreases |data| - offset
  {
    if !Stops(data, offset, files) {
      var h := ParseHeader(data[offset..offset + BlockSize], decode);
      if Accepts(h, filter) {
        MakeEntryOk(h.name, h.size, JsSlice(data, offset + BlockSize, offset + BlockSize + h.size), decode, filter);
      }
      TarScanEntriesOk(data, decode, filter, NextOffset(offset, h.size), Visit(data, decode, filter, offset, files));
    }
  }

  /** Some header from `offset` on is stored under `key`. */
  predicate WritesKey(data: seq<byte>, decode: seq<byte> -> string, filter: Filter, offset: nat, files: map<string, FileEntry>, key: string)
    decreases |data| - offset
  {
    if Stops(data, offset, files) then false
    else
      var h := ParseHeader(data[offset..offset + BlockSize], decode);
      (Accepts(h, filter) && h.name == key) ||
      WritesKey(data, decode, filter, NextOffset(offset, h.size), Visit(data, decode, filter, offset, files), key)
  }

  /** A key that no later header writes keeps the entry it has. */
  lemma {:induction false} TarScanKeepsUnwritten(data: seq<byte>, decode: seq<byte> -> string, filter: Filter, offset: nat, files: map<string, FileEntry>, key: string)
    requires !WritesKey(data, decode, filter, offset, files, key)
    ensures key in TarScan(data, decode, filter, offset, files) <==> key in files
    ensures key in files ==> TarScan(data, decode, filter, offset, files)[key] == files[key]
    decreases |data| - offset
  {
    if !Stops(data, offset, files) {
      var h := ParseHeader(data[offset..offset + BlockSize], decode);
      TarScanKeepsUnwritten(data, decode, filter, NextOffset(offset, h.size), Visit(data, decode, filter, offset, files), key);
    }
  }

  /** Last write wins: when the header at `offset` is accepted and no
      later header has the same name, its entry is the one returned. */
  lemma {:induction false} LastHeaderWins(data: seq<byte>, decode: seq<byte> -> string, filter: Filter, offset: nat, files: map<string, FileEntry>)
    requires !Stops(data, offset, files)
    requires Accepts(ParseHeader(data[offset..offset + BlockSize], decode), filter)
    requires var h := ParseHeader(data[offset..offset + BlockSize], decode);
      !WritesKey(data, decode, filter, NextOffset(offset, h.size), Visit(data, decode, filter, offset, files), h.name)
    ensures var h := ParseHeader(data[offset..offset + BlockSize], decode);
      h.name in TarScan(data, decode, filter, offset, files) &&
      TarScan(data, decode, filter, offset, files)[h.name] ==
      MakeEntry(h.name, h.size, JsSlice(data, offset + BlockSize, offset + BlockSize + h.size), decode, filter)
  {
    var h := ParseHeader(data[offset..offset + BlockSize], decode);
    var v := Visit(data, decode, filter, offset, files);
    var next := NextOffset(offset, h.size);
    var e := MakeEntry(h.name, h.size, JsSlice(data, offset + BlockSize, offset + BlockSize + h.size), decode, filter);
    assert v == files[h.name := e];
    TarScanKeepsUnwritten(data, decode, filter, next, v, h.name);
    assert TarScan(data, decode, filter, offset, files) == TarScan(data, decode, filter, next, v);
    assert h.name in TarScan(data, decode, filter, next, v);
    assert TarScan(data, decode, filter, next, v)[h.name] == e;
  }

  /** One turn of the source's loop body, with its own advance. */
  function TarStepAsWritten(data: seq<byte>, decode: seq<byte> -> string, filter: Filter, offset: nat, files: map<string, FileEntry>): (int, map<string, FileEntry>)
    requires offset + BlockSize <= |data|
  {
    (NextOffsetAsWritten(offset, HeaderSize(data[offset..offset + BlockSize], decode)), Visit(data, decode, filter, offset, files))
  }

  /** As written, a header whose size field reads "-1000" sends the loop
      back to the same header with the same map: the walk never ends. */
  lemma {:induction false} AsWrittenTarStalls(data: seq<byte>, decode: seq<byte> -> string, filter: Filter, offset: nat, files: map<string, FileEntry>)
    requires offset < |data| - BlockSize && |files| < MaxFiles - 1
    requires !AllZero(data[offset..offset + BlockSize])
    requires decode(data[offset..offset + BlockSize][124..136]) == "-1000"
    ensures var (o1, f1) := TarStepAsWritten(data, decode, filter, offset, files);
      o1 == offset && !Stops(data, o1, f1) && TarStepAsWritten(data, decode, filter, o1, f1) == (o1, f1)
  {
    NegativeSizeField(data[offset..offset + BlockSize], decode);
    VisitTwice(data, decode, filter, offset, files);
    var f1 := Visit(data, decode, filter, offset, files);
    assert |f1| <= |files| + 1 by {
      assert f1.Keys <= files.Keys + {ParseHeader(data[offset..offset + BlockSize], decode).name};
    }
  }

  /** Looking at the same header twice stores nothing new. */
  lemma {:induction false} VisitTwice(data: seq<byte>, decode: seq<byte> -> string, filter: Filter, offset: nat, files: map<string, FileEntry>)
    requires offset + BlockSize <= |data|
    ensures Visit(data, decode, filter, offset, Visit(data, decode, filter, offset, files)) == Visit(data, decode, filter, offset, files)
  {
    var h := ParseHeader(data[offset..offset + BlockSize], decode);
    if Accepts(h, filter) {
      var e := MakeEntry(h.name, h.size, JsSlice(data, offset + BlockSize, offset + BlockSize + h.size), decode, filter);
      var f1 := Visit(data, decode, filter, offset, files);
      assert f1 == files[h.name := e];
      assert Visit(data, decode, filter, offset, f1) == f1[h.name := e];
      assert f1[h.name := e] == f1;
    }
  }

  /** The corrected advance always moves past the header, and it agrees
      with the source's wherever the source's moves forward at all. */
  lemma {:induction false} NextOffsetAdvances(offset: int, size: int)
    ensures NextOffset(offset, size) >= offset + BlockSize
    ensures size > -BlockSize ==> NextOffset(offset, size) == NextOffsetAsWritten(offset, size)
    ensures size <= -BlockSize ==> NextOffsetAsWritten(offset, size) <= offset
  {
  }

  /** Zip entries lose exactly one leading component. */
  function ZipVisit(entry: (string, seq<byte>), decode: seq<byte> -> string, filter: Filter, files: map<string, FileEntry>): map<string, FileEntry>
  {
    var path := StripFirstComponent(entry.0);
    if path == "" || EndsWith(path, "/") || |entry.1| > MaxFileSize || !filter(path).included then files
    else files[path := MakeEntry(path, |entry.1|, entry.1, decode, filter)]
  }

  function ZipScan(entries: seq<(string, seq<byte>)>, decode: seq<byte> -> string, filter: Filter, files: map<string, FileEntry>): map<string, FileEntry>
  {
    if entries == [] || |files| >= MaxFiles then files
    else ZipScan(entries[1..], decode, filter, ZipVisit(entries[0], decode, filter, files))
  }

  /** Filters the (path, bytes) entries of an unzipped archive into a map. */
  method ExtractZip(entries: seq<(string, seq<byte>)>, decode: seq<byte> -> string, filter: Filter) returns (files: map<string, FileEntry>)
    ensures files == ZipScan(entries, decode, filter, map[])
    ensures |files| <= MaxFiles
    ensures AllEntriesOk(files, filter)
    ensures forall k :: k in files ==> files[k].size >= 0
  {
    files := map[];
    for i := 0 to |entries|
      invariant ZipScan(entries[i..], decode, filter, files) == ZipScan(entries, decode, filter, map[])
    {
      assert entries[i..][1..] == entries[i + 1..];
      if |files| >= MaxFiles {
        break;
      }
      var (path, content) := entries[i];
      var normalizedPath := StripFirstComponent(path);
      if normalizedPath == "" || EndsWith(normalizedPath, "/") {
        continue;
      }
      if |content| > MaxFileSize {
        continue;
      }
      var filterResult := filter(normalizedPath);
      if !filterResult.included {
        continue;
      }
      var sniffed := Filters.IsBinaryContent(content);
      var isBinary := filterResult.isBinary || sniffed;
      files := files[normalizedPath := FileEntry(normalizedPath, if isBinary then None else Some(decode(content)),
                                                 isBinary, filterResult.isMinified, |content|)];
    }
    ZipScanProperties(entries, decode, filter, map[]);
  }

  lemma {:induction false} ZipScanProperties(entries: seq<(string, seq<byte>)>, decode: seq<byte> -> string, filter: Filter, files: map<string, FileEntry>)
    requires |files| <= MaxFiles && AllEntriesOk(files, filter)
    requires forall k :: k in files ==> files[k].size >= 0
    ensures var r := ZipScan(entries, decode, filter, files);
      |r| <= MaxFiles && AllEntriesOk(r, filter) && forall k :: k in r ==> r[k].size >= 0
  {
    if entries != [] && |files| < MaxFiles {
      ZipVisitProperties(entries[0], decode, filter, files);
      ZipScanProperties(entries[1..], decode, filter, ZipVisit(entries[0], decode, filter, files));
    }
  }

  lemma {:induction false} ZipVisitProperties(entry: (string, seq<byte>), decode: seq<byte> -> string, filter: Filter, files: map<string, FileEntry>)
    requires |files| < MaxFiles && AllEntriesOk(files, filter)
    requires forall k :: k in files ==> files[k].size >= 0
    ensures var v := ZipVisit(entry, decode, filter, files);
      |v| <= MaxFiles && AllEntriesOk(v, filter) && forall k :: k in v ==> v[k].size >= 0
  {
    var v := ZipVisit(entry, decode, filter, files);
    var path := StripFirstComponent(entry.0);
    if v != files {
      assert v == files[path := MakeEntry(path, |entry.1|, entry.1, decode, filter)];
      assert v.Keys == files.Keys + {path};
      MakeEntryOk(path, |entry.1|, entry.1, decode, filter);
    }
  }

  datatype Format = Tgz | Zip

  datatype ExtractError = ArchiveTooLarge(byteLength: int)

  /** The size check and the dispatch of `fetchAndExtract`, once the bytes
      are in hand: archives over 15 MiB are refused before anything is
      decompressed. */
  method ExtractArchive(buffer: seq<byte>, format: Format, decode: seq<byte> -> string,
                        gunzip: seq<byte> -> seq<byte>, unzip: seq<byte> -> seq<(string, seq<byte>)>)
    returns (r: Result<FileTree, ExtractError>)
    ensures r.Failure? <==> |buffer| > MaxArchiveSize
    ensures r.Failure? ==> r.error == ArchiveTooLarge(|buffer|)
    ensures r.Success? ==> r.value == if format == Tgz then TarScan(gunzip(buffer), decode, Filters.ShouldInclude, 0, map[])
                                      else ZipScan(unzip(buffer), decode, Filters.ShouldInclude, map[])
    ensures r.Success? ==> |r.value| <= MaxFiles && AllEntriesOk(r.value, Filters.ShouldInclude)
  {
    if |buffer| > MaxArchiveSize {
      return Failure(ArchiveTooLarge(|buffer|));
    }
    var files;
    if format == Tgz {
      files := ExtractTar(gunzip(buffer), decode, Filters.ShouldInclude);
    } else {
      files := ExtractZip(unzip(buffer), decode, Filters.ShouldInclude);
    }
    return Success(files);
  }
}
