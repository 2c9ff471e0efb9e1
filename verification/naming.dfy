/** File naming shared by the pipeline: the gzip names of compressor.rb, the
    LZMA names of sqlite_diff.rb, the timestamped artifact names and the
    timestamp parser of util.rb (and its copy in `diff_from_file`). Only names
    are modelled; the bytes behind them are not. */
module Naming {
  import opened Wrappers
  import opened Strings

  /** `path.gsub(/<ext>\Z/, "")` for a literal extension. Ruby's `\Z` matches
      at the very end and also just before a final newline, so a name ending in
      `ext + "\n"` loses `ext` and keeps the newline. */
  function StripExtension(path: string, ext: string): string {
    if EndsWith(path, ext) then path[..|path| - |ext|]
    else if EndsWith(path, ext + "\n") then path[..|path| - |ext| - 1] + "\n"
    else path
  }

  lemma StripExtensionOfAppended(path: string, ext: string)
    ensures StripExtension(path + ext, ext) == path
  {
    assert (path + ext)[|path + ext| - |ext|..] == ext;
    assert (path + ext)[..|path|] == path;
  }

  // ---------------------------------------------------------------- gzip

  /** `Compressor#extension` */
  const GzExtension: string := ".gz"

  /** Output name of `Compressor#compress_file`. */
  function CompressedName(path: string): string {
    path + GzExtension
  }

  /** Output name of `Compressor#decompress_file`. */
  function DecompressedName(path: string): string {
    StripExtension(path, GzExtension)
  }

  /** The two files `Compressor#write_compressed_json` leaves behind: the
      plain JSON at the given path and the gzip file it returns. */
  datatype JsonFiles = JsonFiles(plain: string, returned: string)

  function GzJsonFiles(path: string): (r: JsonFiles)
    ensures r.plain == path
    ensures EndsWith(r.returned, GzExtension)
    ensures DecompressedName(r.returned) == r.plain
  {
    StripExtensionOfAppended(path, GzExtension);
    JsonFiles(path, CompressedName(path))
  }

  /** Decompressing the name `compress_file` gives back the original name. */
  lemma GzNameRoundTrip(path: string)
    ensures DecompressedName(CompressedName(path)) == path
    ensures EndsWith(CompressedName(path), GzExtension)
  {
    StripExtensionOfAppended(path, GzExtension);
  }

  /** `decompress_file` removes exactly one trailing ".gz" and nothing else. */
  lemma GzStripsOneExtension(path: string)
    requires EndsWith(path, GzExtension)
    ensures DecompressedName(path) + GzExtension == path
  {
    assert path[..|path| - 3] + path[|path| - 3..] == path;
  }

  /** A name that does not end in ".gz" (nor in ".gz" and a newline) is kept. */
  lemma GzKeepsOtherNames(path: string)
    requires !EndsWith(path, GzExtension) && !EndsWith(path, GzExtension + "\n")
    ensures DecompressedName(path) == path
  {
  }

  // ---------------------------------------------------------------- LZMA

  const LzmaExtension: string := ".lzma"

  /** Output name of `lzma_compress`. */
  function LzmaName(path: string): string {
    path + LzmaExtension
  }

  /** Output name of `lzma_decompress`. */
  function LzmaDecompressedName(path: string): string {
    StripExtension(path, LzmaExtension)
  }

  lemma LzmaNameRoundTrip(path: string)
    ensures LzmaDecompressedName(LzmaName(path)) == path
  {
    StripExtensionOfAppended(path, LzmaExtension);
  }

  /** The name `write_compressed_json` in sqlite_diff.rb reports and the
      name of the file it actually writes: the path gains ".lzma" once before
      the write and once more in the `File.open` call. */
  datatype LzmaJsonFiles = LzmaJsonFiles(reported: string, written: string)

  function LzmaJsonAsWritten(path: string): LzmaJsonFiles {
    var renamed := LzmaName(path);
    LzmaJsonFiles(renamed, LzmaName(renamed))
  }

  /** The reported name is never the written file, and decompressing the
      written file yields the reported name instead of the JSON path. */
  lemma LzmaJsonReportsWrongName(path: string)
    ensures LzmaJsonAsWritten(path).reported != LzmaJsonAsWritten(path).written
    ensures LzmaDecompressedName(LzmaJsonAsWritten(path).written) == LzmaJsonAsWritten(path).reported
    ensures LzmaDecompressedName(LzmaJsonAsWritten(path).written) != path
  {
    LzmaNameRoundTrip(LzmaName(path));
  }

  /** What the function evidently means: write and report `path + ".lzma"`. */
  function LzmaJsonCorrected(path: string): (r: LzmaJsonFiles)
    ensures r.reported == r.written
    ensures LzmaDecompressedName(r.written) == path
  {
    LzmaNameRoundTrip(path);
    LzmaJsonFiles(LzmaName(path), LzmaName(path))
  }

  // ---------------------------------------------------------- timestamps

  /** Length of a `%Y%m%dT%H%M%S` stamp such as "20240131T235959". */
  const StampLength := 15

  predicate IsStamp(t: string) {
    && |t| == StampLength
    && AllDigits(t[..8])
    && t[8] == 'T'
    && AllDigits(t[9..])
  }

  /** The capture of `/-(\d{8}T\d{6})\Z/` in `s`, if it matches: a stamp
      after a "-" at the very end, or just before a final newline. */
  function StampAtEnd(s: string): (r: Option<string>)
    ensures r.Some? ==> IsStamp(r.value)
    ensures r.Some? ==> EndsWith(s, "-" + r.value) || EndsWith(s, "-" + r.value + "\n")
    ensures forall ts | IsStamp(ts) && EndsWith(s, "-" + ts) :: r == Some(ts)
    ensures forall ts | IsStamp(ts) && EndsWith(s, "-" + ts + "\n") :: r == Some(ts)
  {
    SuffixStamps(s);
    NewlineStamps(s);
    var n := |s|;
    if n >= StampLength + 1 && s[n - 16] == '-' && IsStamp(s[n - 15..]) then
      assert s[n - 16..] == "-" + s[n - 15..];
      Some(s[n - 15..])
    else if n >= StampLength + 2 && s[n - 1] == '\n' && s[n - 17] == '-' && IsStamp(s[n - 16..n - 1]) then
      assert s[n - 17..] == "-" + s[n - 16..n - 1] + "\n";
      Some(s[n - 16..n - 1])
    else
      None
  }

  /** Where a stamp ending the text sits. */
  lemma SuffixStamps(s: string)
    ensures forall ts | IsStamp(ts) && EndsWith(s, "-" + ts) ::
              |s| >= StampLength + 1 && s[|s| - 16] == '-' && s[|s| - 15..] == ts
  {
    forall ts | IsStamp(ts) && EndsWith(s, "-" + ts)
      ensures |s| >= StampLength + 1 && s[|s| - 16] == '-' && s[|s| - 15..] == ts
    {
      var n := |s|;
      assert s[n - 16..] == "-" + ts;
      assert s[n - 16] == ("-" + ts)[0];
      assert s[n - 15..] == ("-" + ts)[1..];
    }
  }

  /** Where a stamp before a final newline sits; the newline then keeps
      the last 15 characters from being a stamp. */
  lemma NewlineStamps(s: string)
    ensures forall ts | IsStamp(ts) && EndsWith(s, "-" + ts + "\n") ::
              && |s| >= StampLength + 2 && s[|s| - 1] == '\n' && s[|s| - 17] == '-'
              && s[|s| - 16..|s| - 1] == ts && !IsStamp(s[|s| - 15..])
  {
    forall ts | IsStamp(ts) && EndsWith(s, "-" + ts + "\n")
      ensures && |s| >= StampLength + 2 && s[|s| - 1] == '\n' && s[|s| - 17] == '-'
              && s[|s| - 16..|s| - 1] == ts && !IsStamp(s[|s| - 15..])
    {
      var n := |s|;
      var w := "-" + ts + "\n";
      assert s[n - 17..] == w;
      assert s[n - 1] == w[16] == '\n';
      assert s[n - 17] == w[0];
      assert s[n - 16..n - 1] == w[1..16] == ts;
      assert s[n - 15..][9..][5] == '\n';
    }
  }

  /** The part of a file name `timestamp_from_filename` examines: the
      basename's text before its first dot. */
  function Stem(filename: string): string {
    BeforeFirst(Basename(filename), '.')
  }

  /** `Util.timestamp_from_filename`, with the parsed date kept as its
      15-character stamp. */
  function TimestampFromFilename(filename: string): (r: Option<string>)
    ensures r.Some? ==> IsStamp(r.value) && Contains(filename, "-" + r.value)
    ensures r.Some? ==> EndsWith(Stem(filename), "-" + r.value) || EndsWith(Stem(filename), "-" + r.value + "\n")
    ensures forall ts | IsStamp(ts) && EndsWith(Stem(filename), "-" + ts) :: r == Some(ts)
    ensures forall ts | IsStamp(ts) && EndsWith(Stem(filename), "-" + ts + "\n") :: r == Some(ts)
  {
    var r := StampAtEnd(Stem(filename));
    if r.Some? then
      StampInName(filename, r.value);
      r
    else r
  }

  lemma StampInName(filename: string, ts: string)
    requires StampAtEnd(Stem(filename)) == Some(ts)
    ensures Contains(filename, "-" + ts)
  {
    var b := Basename(filename);
    var stem := Stem(filename);
    StampSliceInStem(stem, ts);
    ContainsInPrefix(stem, b, "-" + ts);
    var trimmed := DropTrailing(filename, '/');
    ContainsInSuffix(trimmed, b, "-" + ts);
    ContainsInPrefix(trimmed, filename, "-" + ts);
  }

  lemma StampSliceInStem(stem: string, ts: string)
    requires |ts| == StampLength
    requires EndsWith(stem, "-" + ts) || EndsWith(stem, "-" + ts + "\n")
    ensures Contains(stem, "-" + ts)
  {
    var t := "-" + ts;
    var n := |stem|;
    var at: nat;
    if EndsWith(stem, t) {
      at := n - 16;
    } else {
      at := n - 17;
      assert stem[at..at + 16] == (t + "\n")[..16];
    }
    assert stem[at..at + 16] == t;
    ContainsSlice(stem, at, t);
  }

  lemma {:induction false} ContainsSlice(s: string, at: nat, t: string)
    requires at + |t| <= |s| && s[at..at + |t|] == t
    ensures Contains(s, t)
  {
    if at > 0 {
      assert s[1..][at - 1..at - 1 + |t|] == t;
      ContainsSlice(s[1..], at - 1, t);
    }
  }

  lemma {:induction false} ContainsInPrefix(s: string, longer: string, t: string)
    requires s <= longer && Contains(s, t)
    ensures Contains(longer, t)
  {
    if !(t <= s) {
      ContainsInPrefix(s[1..], longer[1..], t);
    }
  }

  lemma {:induction false} ContainsInSuffix(s: string, tail: string, t: string)
    requires EndsWith(s, tail) && Contains(tail, t)
    ensures Contains(s, t)
    decreases |s|
  {
    if |s| > |tail| {
      assert EndsWith(s[1..], tail);
      ContainsInSuffix(s[1..], tail, t);
    } else {
      assert s == tail;
    }
  }

  /** Directories and everything from the basename's first dot on are
      ignored. */
  lemma TimestampIgnoresDirectoryAndExtensions(dir: string, stem: string, rest: string)
    requires '/' !in stem && '.' !in stem && '/' !in rest
    ensures TimestampFromFilename(dir + "/" + stem + "." + rest) == StampAtEnd(stem)
    ensures TimestampFromFilename(stem + "." + rest) == StampAtEnd(stem)
  {
    StemOfPlainPath(dir, stem, rest);
  }

  lemma StemOfPlainPath(dir: string, stem: string, rest: string)
    requires '/' !in stem && '.' !in stem && '/' !in rest
    ensures Stem(dir + "/" + stem + "." + rest) == stem
    ensures Stem(stem + "." + rest) == stem
  {
    var name := stem + "." + rest;
    assert '/' !in name by {
      assert forall i | 0 <= i < |name| :: name[i] == (if i < |stem| then stem[i] else if i == |stem| then '.' else rest[i - |stem| - 1]);
    }
    BasenameOfPlainName(name);
    BasenameAfterDirectory(dir, name);
    assert dir + "/" + stem + "." + rest == dir + "/" + name;
    assert name == stem + ['.'] + rest;
    BeforeFirstOfSplit(stem, '.', rest);
  }

  lemma BasenameAfterDirectory(dir: string, name: string)
    requires '/' !in name && |name| > 0
    ensures Basename(dir + "/" + name) == name
  {
    var path := dir + "/" + name;
    assert path[|path| - 1] == name[|name| - 1];
    assert DropTrailing(path, '/') == path;
    AfterLastOfSplit(dir, '/', name);
    assert path == dir + ['/'] + name;
  }

  lemma {:induction false} AfterLastOfSplit(x: string, c: char, y: string)
    requires c !in y
    ensures AfterLast(x + [c] + y, c) == y
    decreases |y|
  {
    var s := x + [c] + y;
    if |y| > 0 {
      var y' := y[..|y| - 1];
      assert s[..|s| - 1] == x + [c] + y';
      AfterLastOfSplit(x, c, y');
      assert y' + [y[|y| - 1]] == y;
    }
  }

  /** A stem ending in "-" and a stamp yields exactly that stamp. */
  lemma StampAtEndOfStampedStem(head: string, ts: string)
    requires IsStamp(ts)
    ensures StampAtEnd(head + "-" + ts) == Some(ts)
  {
    var s := head + "-" + ts;
    assert s[|s| - 15..] == ts;
    assert s[|s| - 16] == '-';
  }

  // ------------------------------------------------------ artifact names

  /** Uncompressed snapshot name built by `diff_from_file`. */
  function DataName(prefix: string, ts: string): string {
    prefix + "data-" + ts + ".db"
  }

  /** Uncompressed changeset name built by `diff_from_file`. */
  function DiffName(prefix: string, ts: string): string {
    prefix + "diff-" + ts + ".json"
  }

  /** The stamp written into a snapshot name is the one read back, however
      many compression extensions are appended afterwards. */
  lemma DataNameRoundTrip(prefix: string, ts: string, extensions: string)
    requires IsStamp(ts)
    requires '.' !in prefix && '/' !in prefix && '/' !in extensions
    ensures TimestampFromFilename(DataName(prefix, ts) + extensions) == Some(ts)
  {
    var name := DataName(prefix, ts) + extensions;
    assert name == prefix + "data" + "-" + ts + "." + "db" + extensions;
    assert '.' !in "data" && '/' !in "data" && '/' !in "db";
    KindNameRoundTrip(prefix, "data", ts, "db", extensions);
  }

  /** Likewise for the changeset name. */
  lemma DiffNameRoundTrip(prefix: string, ts: string, extensions: string)
    requires IsStamp(ts)
    requires '.' !in prefix && '/' !in prefix && '/' !in extensions
    ensures TimestampFromFilename(DiffName(prefix, ts) + extensions) == Some(ts)
  {
    var name := DiffName(prefix, ts) + extensions;
    assert name == prefix + "diff" + "-" + ts + "." + "json" + extensions;
    assert '.' !in "diff" && '/' !in "diff" && '/' !in "json";
    KindNameRoundTrip(prefix, "diff", ts, "json", extensions);
  }

  lemma KindNameRoundTrip(prefix: string, kind: string, ts: string, ext: string, extensions: string)
    requires IsStamp(ts)
    requires '.' !in prefix && '/' !in prefix && '/' !in extensions
    requires '.' !in kind && '/' !in kind && '/' !in ext
    ensures TimestampFromFilename(prefix + kind + "-" + ts + "." + ext + extensions) == Some(ts)
  {
    var head := prefix + kind;
    var rest := ext + extensions;
    assert '.' !in head && '/' !in head by {
      assert forall i | 0 <= i < |head| :: head[i] == (if i < |prefix| then prefix[i] else kind[i - |prefix|]);
    }
    assert '/' !in rest by {
      assert forall i | 0 <= i < |rest| :: rest[i] == (if i < |ext| then ext[i] else extensions[i - |ext|]);
    }
    StampNameRoundTrip(head, ts, rest);
    assert prefix + kind + "-" + ts + "." + ext + extensions == head + "-" + ts + "." + rest;
  }

  lemma StampNameRoundTrip(head: string, ts: string, rest: string)
    requires IsStamp(ts)
    requires '.' !in head && '/' !in head && '/' !in rest
    ensures TimestampFromFilename(head + "-" + ts + "." + rest) == Some(ts)
  {
    var stem := head + "-" + ts;
    assert forall i | 0 <= i < |ts| :: ts[i] != '.' && ts[i] != '/' by {
      forall i | 0 <= i < |ts|
        ensures ts[i] != '.' && ts[i] != '/'
      {
        if i < 8 {
          assert ts[..8][i] == ts[i];
        } else if i > 8 {
          assert ts[9..][i - 9] == ts[i];
        }
      }
    }
    assert forall i | 0 <= i < |stem| :: stem[i] != '.' && stem[i] != '/' by {
      forall i | 0 <= i < |stem|
        ensures stem[i] != '.' && stem[i] != '/'
      {
        if i < |head| {
          assert stem[i] == head[i];
        } else if i > |head| {
          assert stem[i] == ts[i - |head| - 1];
        }
      }
    }
    TimestampIgnoresDirectoryAndExtensions("", stem, rest);
    StampAtEndOfStampedStem(head, ts);
  }

  /** The `previous_time` computed by `diff_from_file`, a copy of
      `timestamp_from_filename`'s parsing that is skipped when no file is
      given. */
  function PreviousTime(file: Option<string>): (r: Option<string>)
    ensures file.None? ==> r.None?
    ensures file.Some? ==> r == TimestampFromFilename(file.value)
  {
    match file
    case None => None
    case Some(f) => StampAtEnd(BeforeFirst(Basename(f), '.'))
  }
}
