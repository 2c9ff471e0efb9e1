/** The publishing side of `FTPSession`: the manifest of published files
    (`manifest`, `manifest=`), the choice of the newest snapshot to start
    from (`most_recent_db`), and `compress_and_upload_dir`. File contents are
    named, not held: an uploaded local file, the gzip-compressed manifest
    document, or the MD5 checksum of that document. */
module Publication {
  import opened Wrappers
  import opened Strings
  import opened Seqs
  import opened Naming
  import opened Rotation

  /** `Util.manifest_data`: a published file's name, MD5 checksum and size. */
  datatype Entry = Entry(file: string, checksum: string, size: nat)

  type Manifest = seq<Entry>

  /** What a file on the server holds. */
  datatype Blob =
    | Upload(local: string)
    | ManifestDoc(entries: Manifest)
    | ManifestDigest(entries: Manifest)

  const ManifestFile: string := "manifest.json"

  const ChecksumFile: string := "manifest.md5"

  /** "manifest.json.gz" */
  function CompressedManifest(): string {
    CompressedName(ManifestFile)
  }

  // ------------------------------------------------------------- manifest

  /** `manifest` (lines 15-24): the published manifest, or an empty one when
      the listing has no compressed manifest. */
  function FetchManifest(s: Session<Blob>): (r: Result<Manifest>)
    ensures CompressedManifest() !in s.listed ==> r == Success([])
    ensures CompressedManifest() in s.listed && CompressedManifest() in s.remote && s.remote[CompressedManifest()].ManifestDoc? ==>
              r == Success(s.remote[CompressedManifest()].entries)
    ensures r.Failure? <==> CompressedManifest() in s.listed && !(CompressedManifest() in s.remote && s.remote[CompressedManifest()].ManifestDoc?)
  {
    var name := CompressedManifest();
    if name !in s.listed then Success([])
    else if name in s.remote && s.remote[name].ManifestDoc? then Success(s.remote[name].entries)
    else Failure(MalformedManifest)
  }

  /** `manifest=` (lines 26-35): upload the compressed manifest, then its
      checksum, both through `put` so that earlier versions are kept. */
  function PublishManifest(s: Session<Blob>, m: Manifest, max: nat): (r: Session<Blob>)
    requires InSync(s)
    ensures InSync(r)
    ensures FetchManifest(r) == Success(m)
    ensures ChecksumFile in r.remote && r.remote[ChecksumFile] == ManifestDigest(m)
    ensures s.remote.Keys <= r.remote.Keys
  {
    var name := CompressedManifest();
    var s1 := Put(s, name, ManifestDoc(m), max);
    PutKeepsNames(s, name, ManifestDoc(m), max);
    var r := Put(s1, ChecksumFile, ManifestDigest(m), max);
    PutKeepsNames(s1, ChecksumFile, ManifestDigest(m), max);
    ChecksumFamilyAvoidsManifest();
    r
  }

  /** The checksum upload never touches the compressed manifest. */
  lemma ChecksumFamilyAvoidsManifest()
    ensures CompressedManifest() != ChecksumFile
    ensures forall k: nat :: Generation(ChecksumFile, k) != CompressedManifest()
  {
    assert CompressedManifest()[9] == 'j' && ChecksumFile[9] == 'm';
    forall k: nat
      ensures Generation(ChecksumFile, k) != CompressedManifest()
    {
      assert Generation(ChecksumFile, k)[9] == 'm';
    }
  }

  /** The previous manifest survives a publication as generation 0. */
  lemma PublishKeepsPreviousManifest(s: Session<Blob>, m: Manifest, max: nat)
    requires InSync(s) && CompressedManifest() in s.remote
    ensures var r := PublishManifest(s, m, max);
            Generation(CompressedManifest(), 0) in r.remote &&
            r.remote[Generation(CompressedManifest(), 0)] == s.remote[CompressedManifest()]
  {
    var name := CompressedManifest();
    var s1 := Put(s, name, ManifestDoc(m), max);
    var g := Generation(name, 0);
    assert g in s1.remote && s1.remote[g] == s.remote[name];
    ChecksumFamilyAvoidsManifest();
    assert g != ChecksumFile by {
      assert g[9] == 'j';
    }
    forall k: nat
      ensures g != Generation(ChecksumFile, k)
    {
      assert g[9] == 'j' && Generation(ChecksumFile, k)[9] == 'm';
    }
  }

  // ------------------------------------------------------- most_recent_db

  /** `entry["file"]` */
  function FileOf(e: Entry): string {
    e.file
  }

  /** `filename =~ /data-/` */
  predicate IsDbName(file: string) {
    Contains(file, "data-")
  }

  /** The file names of the entries that match `/data-/`, in manifest order. */
  function DbCandidates(m: Manifest): (r: seq<string>)
    ensures r == Filter(Each(m, FileOf), IsDbName)
    ensures forall x :: x in r <==> exists i | 0 <= i < |m| :: m[i].file == x && IsDbName(x)
    decreases |m|
  {
    if |m| == 0 then []
    else
      var rest := DbCandidates(m[1..]);
      var names := Each(m, FileOf);
      assert names[1..] == Each(m[1..], FileOf);
      assert forall i | 1 <= i < |m| :: m[i] == m[1..][i - 1];
      (if IsDbName(m[0].file) then [m[0].file] else []) + rest
  }

  /** `max_by` key: the parsed timestamp, or nil. */
  function Key(file: string): Option<string> {
    TimestampFromFilename(file)
  }

  /** The `max_by` keys of the candidates, in order. */
  function Keys(c: seq<string>): (r: seq<Option<string>>)
    ensures |r| == |c|
  {
    seq(|c|, i requires 0 <= i < |c| => Key(c[i]))
  }

  /** Key `a` compares greater than key `b`. Stamps of equal length made of
      digits compare as strings in date order. */
  predicate Later(a: Option<string>, b: Option<string>) {
    a.Some? && b.Some? && Below(b.value, a.value)
  }

  /** Some candidate has a timestamp and some other has none: `max_by` then
      compares nil with a date and raises. */
  ghost predicate Mixed(k: seq<Option<string>>) {
    exists i, j | 0 <= i < |k| && 0 <= j < |k| :: k[i].None? && k[j].Some?
  }

  /** Candidate `i` is what `max_by` returns: no key is later than its key,
      and every earlier key is earlier. */
  ghost predicate FirstLatest(k: seq<Option<string>>, i: int) {
    && 0 <= i < |k|
    && (forall j | 0 <= j < |k| :: !Later(k[j], k[i]))
    && (forall j | 0 <= j < i :: Later(k[i], k[j]))
  }

  /** `most_recent_db` (lines 37-48) without the download: the first entry
      with the greatest timestamp among the files named like a snapshot. */
  method MostRecentDb(m: Manifest) returns (r: Result<Option<string>>)
    ensures r.Failure? <==> Mixed(Keys(DbCandidates(m)))
    ensures r == Success(None) <==> |DbCandidates(m)| == 0
    ensures r.Success? && r.value.Some? ==>
              exists i :: FirstLatest(Keys(DbCandidates(m)), i) && DbCandidates(m)[i] == r.value.value
  {
    var c := DbCandidates(m);
    if |c| == 0 {
      return Success(None);
    }
    var best := MaxBy(Keys(c));
    if best.Failure? {
      return Failure(best.error);
    }
    return Success(Some(c[best.value]));
  }

  /** `max_by` on a non-empty list of keys: the position of the first
      greatest key, or an error when nil has to be compared with a stamp. */
  method MaxBy(k: seq<Option<string>>) returns (r: Result<nat>)
    requires |k| > 0
    ensures r.Failure? <==> Mixed(k)
    ensures r.Success? ==> FirstLatest(k, r.value)
  {
    var best := 0;
    var i := 1;
    if k[0].Some? {
      BelowIrreflexive(k[0].value);
    }
    while i < |k|
      invariant 1 <= i <= |k|
      invariant 0 <= best < i
      invariant forall j | 0 <= j < i :: k[j].None? == k[0].None?
      invariant forall j | 0 <= j < i :: !Later(k[j], k[best])
      invariant forall j | 0 <= j < best :: Later(k[best], k[j])
    {
      if k[i].None? != k[0].None? {
        assert (k[i].None? && k[0].Some?) || (k[0].None? && k[i].Some?);
        return Failure(Incomparable);
      }
      if Later(k[i], k[best]) {
        NewLatest(k, best, i);
        best := i;
      }
      i := i + 1;
    }
    assert !Mixed(k);
    return Success(best);
  }

  /** A key later than the current best is later than everything before it. */
  lemma NewLatest(k: seq<Option<string>>, best: int, i: int)
    requires 0 <= best < i < |k|
    requires forall j | 0 <= j < i :: k[j].None? == k[0].None? && !Later(k[j], k[best])
    requires Later(k[i], k[best])
    ensures forall j | 0 <= j <= i :: !Later(k[j], k[i])
    ensures forall j | 0 <= j < i :: Later(k[i], k[j])
  {
    forall j | 0 <= j < i
      ensures Later(k[i], k[j]) && !Later(k[j], k[i])
    {
      LaterThanBest(k[j].value, k[best].value, k[i].value);
    }
    BelowIrreflexive(k[i].value);
  }

  /** The stamp step behind `NewLatest`, for one earlier candidate. */
  lemma LaterThanBest(kj: string, kb: string, ki: string)
    requires !Below(kb, kj) && Below(kb, ki)
    ensures Below(kj, ki) && !Below(ki, kj)
  {
    BelowTotal(kj, kb);
    if kj != kb {
      BelowTransitive(kj, kb, ki);
    }
    BelowAsymmetric(kj, ki);
  }

  // ---------------------------------------------- compress_and_upload_dir

  /** `s` without its leading run of `c`. */
  function DropLeading(s: string, c: char): (r: string)
    ensures |r| <= |s| && r == s[|s| - |r|..]
    ensures |r| > 0 ==> r[0] != c
  {
    if |s| > 0 && s[0] == c then DropLeading(s[1..], c) else s
  }

  /** `File.extname`: from the last dot of the base name on, ignoring leading
      dots; empty when there is no such dot. */
  function Extname(path: string): (r: string)
    ensures r == "" || r[0] == '.'
  {
    var body := DropLeading(Basename(path), '.');
    if '.' in body then "." + AfterLast(body, '.') else ""
  }

  lemma ExtnameOfPlainName(stem: string, ext: string)
    requires |stem| > 0 && stem[0] != '.' && '/' !in stem && '/' !in ext && '.' !in ext
    ensures Extname(stem + "." + ext) == "." + ext
  {
    var name := stem + "." + ext;
    assert '/' !in name by {
      assert forall i | 0 <= i < |name| :: name[i] == (if i < |stem| then stem[i] else if i == |stem| then '.' else ext[i - |stem| - 1]);
    }
    BasenameOfPlainName(name);
    assert DropLeading(name, '.') == name;
    assert name[|stem|] == '.';
    AfterLastOfSplit(stem, '.', ext);
    assert stem + ['.'] + ext == name;
  }

  /** Line 69 as written: `File.extname` includes the dot, so it never equals
      "md5" or "html". */
  predicate KeepUncompressedAsWritten(file: string) {
    Extname(file) in ["md5", "html"]
  }

  lemma AsWrittenCompressesEverything(file: string)
    ensures !KeepUncompressedAsWritten(file)
  {
    var e := Extname(file);
    assert e == "" || e[0] == '.';
    assert "md5"[0] == 'm' && "html"[0] == 'h';
  }

  /** Line 69 as evidently meant: checksums and pages are uploaded as they are. */
  predicate KeepUncompressed(file: string) {
    Extname(file) in [".md5", ".html"]
  }

  /** A plain name keeps its form exactly when its extension is ".md5" or
      ".html". */
  lemma ChecksumsAndPagesStayUncompressed(stem: string, ext: string)
    requires |stem| > 0 && stem[0] != '.' && '/' !in stem && '/' !in ext && '.' !in ext
    ensures KeepUncompressed(stem + "." + ext) <==> ext == "md5" || ext == "html"
  {
    ExtnameOfPlainName(stem, ext);
    KeptExtensions(ext);
  }

  lemma KeptExtensions(ext: string)
    ensures "." + ext in [".md5", ".html"] <==> ext == "md5" || ext == "html"
  {
    var d := "." + ext;
    assert ext == d[1..];
    if d == ".md5" {
      assert ext == ".md5"[1..];
    }
    if d == ".html" {
      assert ext == ".html"[1..];
    }
  }

  /** Files already compressed are skipped (lines 63-66). */
  predicate Uploadable(file: string) {
    !EndsWith(file, GzExtension)
  }

  /** The name a listed file is uploaded and published under: the file
      itself when `keep` exempts it from compression, its ".gz" name
      otherwise (lines 68-75). */
  function UploadName(file: string, keep: string -> bool): (r: string)
    ensures keep(file) ==> r == file
    ensures !keep(file) ==> EndsWith(r, GzExtension) && DecompressedName(r) == file
  {
    GzNameRoundTrip(file);
    if keep(file) then file else CompressedName(file)
  }

  /** `Util.manifest_data` of the uploaded file (line 78). */
  function EntryFor(file: string, keep: string -> bool, checksum: string -> string, size: string -> nat): (r: Entry)
    ensures r.file == UploadName(file, keep)
    ensures r.checksum == checksum(r.file) && r.size == size(r.file)
  {
    var name := UploadName(file, keep);
    Entry(name, checksum(name), size(name))
  }

  /** Reference definition of the new manifest: one entry per file that is
      not already compressed, in listing order, describing the uploaded file. */
  function ManifestFor(files: seq<string>, keep: string -> bool, checksum: string -> string, size: string -> nat): (r: Manifest)
    ensures |r| == |Filter(files, Uploadable)|
    ensures forall i | 0 <= i < |r| :: r[i] == EntryFor(Filter(files, Uploadable)[i], keep, checksum, size)
  {
    Each(Filter(files, Uploadable), file => EntryFor(file, keep, checksum, size))
  }

  /** The uploads of the listing so far and the entries collected. */
  datatype Uploaded = Uploaded(session: Session<Blob>, manifest: Manifest)

  /** Lines 61-89: each listed file not ending in ".gz" is compressed unless
      `keep` exempts it, described and uploaded; the local file system's
      answers are the parameters `checksum` and `size`. */
  function UploadEach(s: Session<Blob>, files: seq<string>, keep: string -> bool, checksum: string -> string, size: string -> nat, max: nat): (r: Uploaded)
    requires InSync(s)
    ensures InSync(r.session)
    ensures r.manifest == ManifestFor(files, keep, checksum, size)
    ensures s.remote.Keys <= r.session.remote.Keys
    ensures forall i | 0 <= i < |r.manifest| :: r.manifest[i].file in r.session.remote
    decreases |files|
  {
    if |files| == 0 then Uploaded(s, [])
    else
      var f := files[0];
      if !Uploadable(f) then
        var rest := UploadEach(s, files[1..], keep, checksum, size, max);
        ManifestSkips(files, keep, checksum, size);
        rest
      else
        var e := EntryFor(f, keep, checksum, size);
        var s1 := Put(s, e.file, Upload(e.file), max);
        PutKeepsNames(s, e.file, Upload(e.file), max);
        var rest := UploadEach(s1, files[1..], keep, checksum, size, max);
        ManifestTakes(files, keep, checksum, size);
        Uploaded(rest.session, [e] + rest.manifest)
  }

  lemma ManifestSkips(files: seq<string>, keep: string -> bool, checksum: string -> string, size: string -> nat)
    requires |files| > 0 && !Uploadable(files[0])
    ensures ManifestFor(files, keep, checksum, size) == ManifestFor(files[1..], keep, checksum, size)
  {
    assert Filter(files, Uploadable) == Filter(files[1..], Uploadable);
  }

  lemma ManifestTakes(files: seq<string>, keep: string -> bool, checksum: string -> string, size: string -> nat)
    requires |files| > 0 && Uploadable(files[0])
    ensures ManifestFor(files, keep, checksum, size) == [EntryFor(files[0], keep, checksum, size)] + ManifestFor(files[1..], keep, checksum, size)
  {
    var kept := Filter(files, Uploadable);
    assert kept == [files[0]] + Filter(files[1..], Uploadable);
    assert kept[1..] == Filter(files[1..], Uploadable);
  }

  /** Upload the directory's files, then publish a manifest listing exactly
      those files. The manifest replaces the previous one; it does not
      extend it. */
  function UploadDirWith(s: Session<Blob>, files: seq<string>, keep: string -> bool, checksum: string -> string, size: string -> nat, max: nat): (r: Session<Blob>)
    requires InSync(s)
    ensures InSync(r)
    ensures FetchManifest(r) == Success(ManifestFor(files, keep, checksum, size))
    ensures forall e | e in ManifestFor(files, keep, checksum, size) :: e.file in r.remote
    ensures s.remote.Keys <= r.remote.Keys
  {
    var up := UploadEach(s, files, keep, checksum, size, max);
    PublishManifest(up.session, up.manifest, max)
  }

  /** `compress_and_upload_dir` (lines 57-100) as written: line 69 never
      exempts a file, so every listed file not ending in ".gz" is published
      under its ".gz" name, in listing order, and the manifest lists exactly
      those names. */
  function UploadDir(s: Session<Blob>, files: seq<string>, checksum: string -> string, size: string -> nat, max: nat): (r: Session<Blob>)
    requires InSync(s)
    ensures InSync(r)
    ensures s.remote.Keys <= r.remote.Keys
    ensures FetchManifest(r).Success?
    ensures var m := FetchManifest(r).value;
            && |m| == |Filter(files, Uploadable)|
            && forall i | 0 <= i < |m| ::
                 && m[i].file == CompressedName(Filter(files, Uploadable)[i])
                 && m[i].checksum == checksum(m[i].file) && m[i].size == size(m[i].file)
                 && m[i].file in r.remote
  {
    forall file
      ensures !KeepUncompressedAsWritten(file)
    {
      AsWrittenCompressesEverything(file);
    }
    UploadDirWith(s, files, KeepUncompressedAsWritten, checksum, size, max)
  }

  /** `compress_and_upload_dir` with line 69 corrected: checksums and pages
      are published under their own names, every other listed file not
      ending in ".gz" under its ".gz" name. */
  function UploadDirCorrected(s: Session<Blob>, files: seq<string>, checksum: string -> string, size: string -> nat, max: nat): (r: Session<Blob>)
    requires InSync(s)
    ensures InSync(r)
    ensures s.remote.Keys <= r.remote.Keys
    ensures FetchManifest(r).Success?
    ensures var m := FetchManifest(r).value;
            && |m| == |Filter(files, Uploadable)|
            && forall i | 0 <= i < |m| ::
                 var f := Filter(files, Uploadable)[i];
                 && (KeepUncompressed(f) ==> m[i].file == f)
                 && (!KeepUncompressed(f) ==> m[i].file == CompressedName(f))
                 && m[i].file in r.remote
  {
    UploadDirWith(s, files, KeepUncompressed, checksum, size, max)
  }
}
