# sqlite_diff in Dafny

A model of the change-capture and publication core of `sqlite_diff`. The
Ruby scripts do four things. They read the rows of a master table and the
previous point-in-time snapshot. They compute which rows were added,
modified and deleted. They write a new SQLite snapshot and an LZMA-compressed
JSON changeset. They publish files to an FTP server behind a manifest, and
they keep a bounded history of every overwritten file as `name.0`,
`name.1`, ...

The model is pure functions over immutable data:

| file | module | models |
|---|---|---|
| `wrappers.dfy` | `Wrappers` | `Option`, `Result`, and the three ways the core raises |
| `strings.dfy` | `Strings` | string helpers: suffixes, substrings, decimal digits, joins, `File.basename`, `partition`, ordering of stamps |
| `naming.dfy` | `Naming` | gzip names (`Compressor`), LZMA names, `write_compressed_json` names, `Util.timestamp_from_filename`, the artifact names `diff_from_file` builds |
| `rows.dfy` | `Rows` | values, Ruby truthiness, primary keys, `select`, and the ordered Ruby hash keyed by primary key |
| `diff.dfy` | `Diff` | `HashDiff.diff` on flat rows, then loading, pruning and walking in `generate_diff` |
| `diff_properties.dfy` | `DiffProperties` | classification, disjointness, idempotence, first run, emptied table |
| `snapshot.dfy` | `Snapshot` | `write_compressed_db` in slices of 500, the changeset, the decision to write, `diff_from_file` |
| `run_properties.dfy` | `RunProperties` | whole-run properties |
| `rotation.dfy` | `Rotation` | `put`, `rename`, `move_old_file` over the server's files and the session's listing |
| `publication.dfy` | `Publication` | `manifest`, `manifest=`, `most_recent_db`, `compress_and_upload_dir` |

Ruby semantics are made explicit:

- **Rows.** A row is a map from column name to value. A primary key counts
  only when it is truthy, that is, neither `nil` nor `false`. A Ruby hash
  remembers insertion order, so `existing_rows` is a `Table` holding an
  ordered key list and a map.
- **Suffixes.** `\Z` in the suffix regexes also matches just before a final
  newline, and `StripExtension` models that.
- **`File.extname`.** It follows Ruby 2.7 and later, where a name ending
  in a dot, such as "foo.", has the extension ".". Older Ruby returns "".
- **`max_by`.** It keeps the first greatest element. It raises when a
  candidate without a timestamp meets one with a timestamp.
- **Timestamps.** They are kept as their 15-character `%Y%m%dT%H%M%S` text.
  Stamps of that shape compare as strings in date order.
- **The server.** It is a map from file name to content, plus the listing
  (`@list`) the session keeps of it.

Two behaviours of the code are worth stating outright:

- **The manifest is replaced, not extended.** `compress_and_upload_dir`
  publishes a manifest listing only the files of the uploaded directory. It
  does not add them to the entries already there.
  `Publication.UploadDir` states this.
- **It takes four uploads to drop a version.** With
  `max_previous_file_versions` at 1, three uploads keep all three contents
  (`name`, `name.0`, `name.1`). Only the fourth upload drops the oldest one.
  `move_old_file` renames into generation `max` and deletes only when that
  slot is already taken, so up to `max + 1` previous versions are kept.

## Model

| member | source | states |
|---|---|---|
| `Naming.GzNameRoundTrip` | compressor.rb:5-24 | decompressing the name `compress_file` produced gives back the original name, which then ends in ".gz" |
| `Naming.GzStripsOneExtension` | compressor.rb:16-17 | for a name ending in ".gz", `decompress_file` removes exactly that one suffix |
| `Naming.GzKeepsOtherNames` | compressor.rb:16-17 | a name not ending in ".gz" (or ".gz" and a newline) is left as it is |
| `Naming.GzJsonFiles` | compressor.rb:30-33 | `write_compressed_json` leaves the plain file at the given path and returns a ".gz" name that decompresses back to it |
| `Naming.LzmaNameRoundTrip` | sqlite_diff.rb:27-45 | `lzma_decompress` of the name `lzma_compress` wrote is the original path |
| `Naming.LzmaJsonReportsWrongName` | sqlite_diff.rb:80-86 | as written, the reported name differs from the file written, and decompressing the written file yields the reported name instead of the JSON path |
| `Naming.LzmaJsonCorrected` | sqlite_diff.rb:80-86 | corrected: the reported name is the written file, and it decompresses to the JSON path |
| `Naming.TimestampFromFilename` | util.rb:4-8 | a parsed stamp has the `%Y%m%dT%H%M%S` shape and occurs in the file name right after a "-" |
| `Naming.TimestampIgnoresDirectoryAndExtensions` | util.rb:4-8 | the directory part and everything from the basename's first dot on play no part in the parse |
| `Naming.DataNameRoundTrip` | sqlite_diff.rb:185-187 | the stamp put into a snapshot name is read back, however many extensions are appended later |
| `Naming.DiffNameRoundTrip` | sqlite_diff.rb:185-187 | the stamp put into a changeset name is read back, however many extensions are appended later |
| `Naming.PreviousTime` | sqlite_diff.rb:176-183 | with no file there is no start time; with one it is exactly what `timestamp_from_filename` returns |
| `Rows.Put` | sqlite_diff.rb:148 | storing under a key replaces the row; a known key keeps its position in the order and a new key goes last |
| `Diff.FlatDiffEmptyIffEqual` | sqlite_diff.rb:136-137 | the diff of two rows is empty exactly when the rows are equal |
| `Diff.RowDelta` | sqlite_diff.rb:136-143 | raises exactly when the columns differ; no entry exactly when the rows are equal; otherwise a non-empty delta of the changed columns only, which applied to the old row gives the master row |
| `Diff.Load` | sqlite_diff.rb:106-109 | the loaded hash holds exactly the truthy keys of the snapshot, each with the last row carrying it |
| `Diff.Prune` | sqlite_diff.rb:121-129 | the hash keeps exactly the keys the master still has, with their rows, in their previous order; `deleted` lists each removed key once, in hash order |
| `Diff.StepSkipsUnkeyedRow` | sqlite_diff.rb:132-133 | a changed row without a truthy key changes nothing |
| `Diff.StepAddsUnseenRow` | sqlite_diff.rb:144-148 | a row with an unknown key is appended to `added` and stored; `modified` is unchanged |
| `Diff.StepComparesKnownRow` | sqlite_diff.rb:134-148 | a row with a known key raises exactly when its columns differ; otherwise it is recorded in `modified` exactly when it differs, and it is stored |
| `Diff.Walk` | sqlite_diff.rb:131-149 | after the loop the hash holds the old keys plus every truthy changed key, with the last changed row for each, and other rows are untouched |
| `Diff.GenerateDiff` | sqlite_diff.rb:106-149 | `deleted` is exactly the snapshot keys missing from the master keys, without repeats; the result hash is the surviving rows overwritten by the last changed row of each key |
| `DiffProperties.WalkDistinct` | sqlite_diff.rb:131-149 | for distinct changed keys: raises exactly on a column-set conflict; `added` grows by exactly the rows with unknown keys, in order; every known key is classified by comparing stored and master rows |
| `DiffProperties.DiffClassification` | sqlite_diff.rb:106-149 | for distinct changed keys: the diff raises exactly on a conflict with a surviving row; `added` is exactly the rows whose key did not survive; `modified` holds exactly the surviving keys whose row changed, each with its delta |
| `DiffProperties.ClassesAreDisjoint` | sqlite_diff.rb:117-149 | no key is in more than one of added, modified and deleted |
| `DiffProperties.LoadEntries` | sqlite_diff.rb:106-109 | loading the rows of a written snapshot gives back the hash they were written from |
| `DiffProperties.DiffIsIdempotent` | sqlite_diff.rb:92-149 | diffing the same master data again, against the snapshot the run reconciled, finds nothing added, modified or deleted and keeps the same rows |
| `DiffProperties.FirstRunAddsEverything` | sqlite_diff.rb:111-149 | for distinct changed keys, with no previous snapshot, the diff does not raise; every keyed row is added and nothing is modified or deleted |
| `DiffProperties.EmptiedTableDeletesEverything` | sqlite_diff.rb:121-129 | with no master keys, every previous key is deleted and the hash ends up empty |
| `Snapshot.Slices` | sqlite_diff.rb:71 | `each_slice` gives non-empty slices of at most n elements, all full but the last, and none for no rows |
| `Snapshot.SlicesConcat` | sqlite_diff.rb:71 | joining the slices gives back the rows in order |
| `Snapshot.PlaceholderCount` | sqlite_diff.rb:70 | a placeholder group holds one "?" per schema column |
| `Snapshot.InsertFor` | sqlite_diff.rb:72-74 | a statement binds at most its slice's rows, all of them when every row is keyed, and as many "?" as bound values; it binds nothing exactly when no row of the slice is keyed |
| `Snapshot.StatementsBindKeyedRows` | sqlite_diff.rb:71-75 | the statements together bind exactly the keyed rows of all slices, in order |
| `Snapshot.ColumnDefinitions` | sqlite_diff.rb:67-68 | one column definition per distinct configured column, each starting with the column's name |
| `Snapshot.WriteCompressedDb` | sqlite_diff.rb:63-78 | the file decompresses to the given path; the statements bind exactly the keyed rows, in order, at most 500 per statement, with one "?" per bound value; one statement per slice, empty exactly when its slice has no keyed row, so none is empty when every row is keyed |
| `Snapshot.SnapshotHoldsTable` | sqlite_diff.rb:156-160 | the reconciled hash is written in full, in hash order, with no empty statement |
| `Snapshot.Publish` | sqlite_diff.rb:152-173 | nothing is written exactly when nothing was modified, added or deleted; the snapshot decompresses to its planned path; the changeset file written is not the name reported, decompresses to the planned path plus ".lzma", and only the reported name decompresses to the planned path; the changeset holds the configured columns, the modified rows, the added rows' values and the deleted keys |
| `Snapshot.PublishCorrected` | sqlite_diff.rb:152-173 | with `write_compressed_json` corrected: the changeset is written under the name reported, which decompresses to the planned path; the snapshot and the changeset's columns, modified rows, added values and deleted keys are as in `Snapshot.Publish` |
| `Snapshot.ReadPath` | sqlite_diff.rb:99-104 | a ".lzma" snapshot is read through the file it decompresses to; any other file is read directly |
| `Snapshot.PlanRun` | sqlite_diff.rb:176-187 | a run without a file reads nothing and has no start time; a run with a file starts at its stamp and reads it, or its decompressed copy |
| `Snapshot.NextRunFollowsPrevious` | sqlite_diff.rb:176-187 | started from a snapshot published at stamp t, the next run reads that snapshot, asks for rows changed since t, and names its own files with the new stamp |
| `Snapshot.RunDiff` | sqlite_diff.rb:92-174 | the run raises exactly when the diff raises; a written snapshot decompresses to the planned name, the written changeset to the planned name plus ".lzma", and the reported changeset name to the planned name; nothing is written exactly when the diff found no change, otherwise the snapshot binds every keyed row of the reconciled hash and the changeset holds the columns, modified rows, added values and deleted keys of the diff |
| `Snapshot.RunDiffCorrected` | sqlite_diff.rb:92-174 | with `write_compressed_json` corrected: raises exactly when the diff raises; the changeset is written under the name reported, which decompresses to the planned name; what is written is stated against the diff as for `Snapshot.RunDiff` |
| `RunProperties.FirstRunWritesWhenSomeRowIsKeyed` | sqlite_diff.rb:111-173 | a first run never raises, and it writes files exactly when some changed row has a truthy key |
| `RunProperties.RerunWritesNothing` | sqlite_diff.rb:92-173 | repeating a run against its own snapshot with the same master data writes nothing |
| `Rotation.GenerationInjective` | ftp_session.rb:111 | different depths give different backup names |
| `Rotation.Rename` | ftp_session.rb:104-108 | the file moves to its new name and the listing follows; every other file is unchanged |
| `Rotation.Delete` | ftp_session.rb:117 | the file leaves the server but stays in the listing |
| `Rotation.StopDepth` | ftp_session.rb:114-121 | the recursion stops at the first free generation, or at the cap, and every generation before that is taken |
| `Rotation.MoveOldFile` | ftp_session.rb:110-125 | each listed generation moves one step down up to the stopping depth, the oldest being overwritten at the cap; the file itself becomes generation 0; nothing else changes and the listing stays in sync |
| `Rotation.Put` | ftp_session.rb:50-55 | the new content is stored under the name; a new name adds only that file; an existing one pushes its versions down one generation; other files are untouched |
| `Rotation.PutKeepsNames` | ftp_session.rb:50-55 | an upload never removes a file from the server |
| `Rotation.PutAddsNothingBeyondCap` | ftp_session.rb:110-125 | an upload never creates a version numbered beyond the cap: any such version afterwards was already there, whatever versions existed |
| `Rotation.PutKeepsCapped` | ftp_session.rb:110-125 | a server with no version beyond the cap still has none after an upload |
| `Rotation.PutKeepsContiguous` | ftp_session.rb:110-125 | after an upload the versions of a file are still numbered from 0 without gaps |
| `Rotation.PutManyKeepsCapped` | ftp_session.rb:50-55 | however many uploads are made, a file keeps at most cap + 1 previous versions |
| `Rotation.PutManyKeepsContiguous` | ftp_session.rb:50-55 | however many uploads are made, a file's versions stay numbered from 0 without gaps |
| `Rotation.FreshFileStaysBounded` | ftp_session.rb:50-55 | a file with no versions yet keeps, after any number of uploads, at most cap + 1 versions, numbered without gaps |
| `Rotation.ThreeUploadsKeepEverything` | ftp_session.rb:110-125 | with the cap at 1, three uploads keep all three contents |
| `Rotation.FourthUploadDropsOldest` | ftp_session.rb:110-125 | with the cap at 1, the fourth upload drops the first content and shifts the others |
| `Publication.FetchManifest` | ftp_session.rb:15-24 | a missing compressed manifest reads as an empty manifest; a present one reads as its entries |
| `Publication.PublishManifest` | ftp_session.rb:26-35 | after publishing, the manifest reads back as exactly the published entries, the checksum file describes them, and no file is lost |
| `Publication.PublishKeepsPreviousManifest` | ftp_session.rb:26-35 | the previous manifest survives as "manifest.json.gz.0" |
| `Publication.DbCandidates` | ftp_session.rb:38-40 | the candidates are exactly the manifest's file names that contain "data-" |
| `Publication.MaxBy` | ftp_session.rb:41 | raises exactly when keys with and without a stamp are mixed; otherwise returns the first position holding the greatest key |
| `Publication.MostRecentDb` | ftp_session.rb:37-48 | nil exactly when no name matches; raises exactly when stamped and unstamped names are mixed; otherwise the first name with the latest stamp |
| `Publication.Extname` | ftp_session.rb:69 | `File.extname` is empty or starts with its dot |
| `Publication.ExtnameOfPlainName` | ftp_session.rb:69 | for a plain name, `File.extname` is the dot and the last extension |
| `Publication.AsWrittenCompressesEverything` | ftp_session.rb:69 | as written, no file is ever exempt from compression |
| `Publication.ChecksumsAndPagesStayUncompressed` | ftp_session.rb:69 | corrected: a plain file is exempt from compression exactly when its extension is md5 or html |
| `Publication.UploadName` | ftp_session.rb:68-75 | an exempt file keeps its name; any other is uploaded under a ".gz" name that decompresses back to the local file's name |
| `Publication.EntryFor` | ftp_session.rb:78 | an entry names the uploaded file and carries that file's checksum and size |
| `Publication.UploadEach` | ftp_session.rb:61-89 | the collected entries are the reference manifest: one per file not ending in ".gz", in listing order; every entry's file is on the server; no file is lost |
| `Publication.UploadDirWith` | ftp_session.rb:57-100 | afterwards the manifest reads back as exactly the directory's entries, each of whose files is on the server; no file is lost |
| `Publication.UploadDir` | ftp_session.rb:57-100 | as written: the manifest reads back with one entry per listed file not ending in ".gz", in order, each under that file's ".gz" name, with its checksum and size, and on the server |
| `Publication.UploadDirCorrected` | ftp_session.rb:57-100 | with line 69 corrected: as `Publication.UploadDir`, except that checksum and page files are published under their own names |

## Left out

- Byte-level work is not modelled. This covers compression (LZMA and gzip), MD5 digests, JSON generation and parsing, and SQL text. The model tracks only names, bound values and placeholder counts. The manifest and checksum files are stored as the entries they describe, and the JSON round trip is taken to be exact.
- The MySQL query (`get_new_master_data`) and the SQLite read (`get_existing_rows`) are not modelled. Their results are parameters: `MasterData` and the snapshot rows. The snapshot-rows parameter holds the rows after the `String === k` filter, which drops the integer-index keys the SQLite driver adds to rows read with `results_as_hash`.
- `Time.now` is not modelled. The current stamp is the parameter `now`.
- `config.yml` and `columns.yml` are not read. Their values are the parameter `Config`, plus the cap `max`.
- The FTP transport is not modelled. This covers login, `nlst`, `putbinaryfile`, `getbinaryfile` and the download of the chosen snapshot. The server is a map and the listing is a set. Both are assumed to start in sync, with no other writer.
- Local files are not modelled. This covers `File.unlink`, `Dir.chdir` and the removal of manifest files. The directory listing (`Dir["*.*"]`) is the parameter `files`. Each file's size and checksum come from the parameters `size` and `checksum`.
- Logging and printing (`logger.rb`, `print`, `puts`, `debug_print`) are not modelled.
- Floating-point column values are not modelled. Values are nil, booleans, integers and strings, compared by equality.
- Nested values are not modelled. HashDiff's recursion into nested hashes and arrays never arises for flat database rows.
- `Naming.TimestampFromFilename`: any `\d{8}T\d{6}` text yields a stamp. `DateTime.parse` would raise for an impossible date such as month 13, and that is not modelled.
- `Publication.MostRecentDb`: stamps are compared as strings rather than as parsed dates. For valid stamps of this fixed shape the two orders agree.
- `Snapshot.WriteCompressedDb`: a slice of 500 rows none of which has a truthy key gives `insert into ... values ` with no value groups. SQLite rejects that statement and the source raises there. The model returns the empty statement instead of an error; its contract says exactly which statements are empty. The diff never produces such a slice, because every row of the reconciled hash is keyed (`Snapshot.SnapshotHoldsTable`).
- `DiffProperties.DiffIsIdempotent`: it assumes that SQLite returns the written rows unchanged, in insertion order. It also assumes the changed rows have distinct keys and that the master key set contains them.
- `Rows.Values`: it projects a row onto the distinct configured columns, with nil for a column the row lacks. Ruby's `.values` returns the row's own values in insertion order. The two agree only when every row has exactly the configured columns in configured order, as a `select` of those columns gives.
- Order of the modified-rows hash: the JSON preserves insertion order, but the model keeps `modified` as a map, so that order is lost.

## Findings

| source | as written | input that shows it | evidently intended | confidence | as-written member | corrected member |
|---|---|---|---|---|---|---|
| sqlite_diff.rb:80-86 | `path` gains ".lzma" at line 81, and line 84 appends ".lzma" again, so the file written is "x.json.lzma.lzma" while "x.json.lzma" is reported | `write_compressed_json("diff-20240101T000000.json", obj)` | write and report "diff-20240101T000000.json.lzma" | not executed | `Naming.LzmaJsonReportsWrongName` | `Naming.LzmaJsonCorrected` |
| ftp_session.rb:69 | `File.extname` returns the extension with its dot, so `%w(md5 html)` never contains it and every file is compressed | `manifest.md5` or `index.html` in the uploaded directory | checksum and page files are uploaded uncompressed | not executed | `Publication.AsWrittenCompressesEverything` | `Publication.ChecksumsAndPagesStayUncompressed` |

Both versions are carried through the model. `Snapshot.Publish`,
`Snapshot.RunDiff` and `Publication.UploadDir` follow the code as written;
`Snapshot.PublishCorrected`, `Snapshot.RunDiffCorrected` and
`Publication.UploadDirCorrected` use the corrected definitions.
