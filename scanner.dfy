/** `make_dataframe_from_metadata`: walk the picture directory, skip the
    noise files, and append one metadata row per file that can be stated and
    hashed. The thread pool is modelled as a sequential loop in walk order. */
module Scanner {
  import opened Maybe
  import opened Calendar
  import opened Disk
  import opened Fingerprint

  /** A path as its sequence of components. */
  type Path = seq<string>

  /** Platform thumbnail caches, Finder metadata and the ledger's name are never scanned. */
  const Excluded: set<string> := {"Thumbs.db", ".DS_Store", ".processed_files.hash"}

  /** One `(root, filename)` pair from `os.walk`. */
  datatype WalkEntry = WalkEntry(root: Path, name: string)

  function PathOf(e: WalkEntry): Path {
    e.root + [e.name]
  }

  /** One row of the metadata table: `Filename`, `Full_path`, the size the
      `SizeKB` column is computed from, `ModifiedTime` and `FileHash`. */
  datatype Row = Row(name: string, fullPath: Path, sizeBytes: nat, modified: DateTime, hash: string)

  /** The `FileHash` column. */
  function Hashes(rows: seq<Row>): (h: seq<string>)
    ensures |h| == |rows| && forall i :: 0 <= i < |rows| ==> h[i] == rows[i].hash
  {
    seq(|rows|, i requires 0 <= i < |rows| => rows[i].hash)
  }

  /** `all_files`: the walked files whose names are not excluded, in walk order. */
  function Candidates(walk: seq<WalkEntry>): (c: seq<WalkEntry>)
    ensures |c| <= |walk|
    ensures forall e :: e in c ==> e in walk && e.name !in Excluded
    ensures forall e :: e in walk && e.name !in Excluded ==> e in c
  {
    if walk == [] then []
    else
      var n := |walk| - 1;
      Candidates(walk[..n]) + (if walk[n].name in Excluded then [] else [walk[n]])
  }

  /** `process_file`: the row it appends, if any. `stat` raises
      `FileNotFoundError` on a missing file; `calculate_file_hash` returns
      `None` for it or lets `PermissionError` escape; both exceptions are
      caught and the file yields no row. A digest is appended when truthy. */
  function ProcessFile(d: DiskState<Path>, e: WalkEntry, md5: seq<Byte> -> string): (r: Option<Row>)
    ensures r.Some? <==>
      (PathOf(e) in d.files && PathOf(e) !in d.locked && FingerprintOf(md5, d.files[PathOf(e)].content) != "")
    ensures r.Some? ==> Describes(d, md5, r.value) && r.value.name == e.name && r.value.fullPath == PathOf(e)
  {
    var path := PathOf(e);
    if path !in d.files then None
    else match CalculateFileHash(d, path, md5)
      case Digest(h) =>
        if h != "" then Some(Row(e.name, path, |d.files[path].content|, d.files[path].modified, h))
        else None
      case NoFile => None
      case Escaped(_) => None
  }

  /** The rows appended to `file_metadata_list` for `files`, in order. */
  function ScanRows(d: DiskState<Path>, files: seq<WalkEntry>, md5: seq<Byte> -> string): seq<Row> {
    if files == [] then []
    else
      var n := |files| - 1;
      ScanRows(d, files[..n], md5) + (match ProcessFile(d, files[n], md5) case None => [] case Some(r) => [r])
  }

  /** A row tells the truth about the file it names on disk `d`. */
  ghost predicate Describes(d: DiskState<Path>, md5: seq<Byte> -> string, r: Row) {
    && r.fullPath in d.files && r.fullPath !in d.locked
    && |r.fullPath| >= 1 && r.fullPath[|r.fullPath| - 1] == r.name
    && r.sizeBytes == |d.files[r.fullPath].content|
    && r.modified == d.files[r.fullPath].modified
    && r.hash == FingerprintOf(md5, d.files[r.fullPath].content)
  }

  method MakeDataframeFromMetadata(vol: Volume<Path>, walk: seq<WalkEntry>, md5: seq<Byte> -> string)
    returns (rows: seq<Row>)
    ensures rows == ScanRows(vol.State(), Candidates(walk), md5)
  {
    var allFiles := Candidates(walk);
    rows := [];
    var i := 0;
    while i < |allFiles|
      invariant 0 <= i <= |allFiles|
      invariant rows == ScanRows(vol.State(), allFiles[..i], md5)
    {
      var e := allFiles[i];
      var path := PathOf(e);
      if path in vol.files {
        var h := CalculateFileHash(vol.State(), path, md5);
        if h.Digest? && h.hex != "" {
          rows := rows + [Row(e.name, path, |vol.files[path].content|, vol.files[path].modified, h.hex)];
        }
      }
      assert allFiles[..i + 1][..i] == allFiles[..i];
      i := i + 1;
    }
    assert allFiles[..i] == allFiles;
  }

  /** Every row describes a readable file of the scan, under that file's own
      name and path, with its fingerprint; at most one row per scanned file. */
  lemma {:induction false} ScanRowsSound(d: DiskState<Path>, files: seq<WalkEntry>, md5: seq<Byte> -> string)
    ensures |ScanRows(d, files, md5)| <= |files|
    ensures forall r :: r in ScanRows(d, files, md5) ==>
      Describes(d, md5, r) && exists e :: e in files && PathOf(e) == r.fullPath && e.name == r.name
  {
    if files != [] {
      var n := |files| - 1;
      ScanRowsSound(d, files[..n], md5);
      forall r | r in ScanRows(d, files, md5)
        ensures Describes(d, md5, r) && exists e :: e in files && PathOf(e) == r.fullPath && e.name == r.name
      {
        if r !in ScanRows(d, files[..n], md5) {
          assert PathOf(files[n]) == r.fullPath && files[n].name == r.name;
        } else {
          var e :| e in files[..n] && PathOf(e) == r.fullPath && e.name == r.name;
          assert e in files;
        }
      }
    }
  }

  /** No row of a scan ever names `Thumbs.db`, `.DS_Store` or `.processed_files.hash`. */
  lemma NoExcludedRow(d: DiskState<Path>, walk: seq<WalkEntry>, md5: seq<Byte> -> string)
    ensures forall r :: r in ScanRows(d, Candidates(walk), md5) ==> r.name !in Excluded
  {
    ScanRowsSound(d, Candidates(walk), md5);
  }

  /** A file missing at scan time, or one that refuses to be read, adds no row. */
  lemma UnreadableAddsNoRow(d: DiskState<Path>, files: seq<WalkEntry>, e: WalkEntry, md5: seq<Byte> -> string)
    requires PathOf(e) !in d.files || PathOf(e) in d.locked
    ensures ScanRows(d, files + [e], md5) == ScanRows(d, files, md5)
  {
    assert (files + [e])[..|files|] == files;
  }

  /** When every scanned file is readable (and digests are never empty, as
      MD5's hexadecimal text never is), there is exactly one row per file, in
      scan order. */
  lemma {:induction false} ReadableFilesAllScanned(d: DiskState<Path>, files: seq<WalkEntry>, md5: seq<Byte> -> string)
    requires forall x :: md5(x) != ""
    requires forall e :: e in files ==> PathOf(e) in d.files && PathOf(e) !in d.locked
    ensures |ScanRows(d, files, md5)| == |files|
    ensures forall i :: 0 <= i < |files| ==>
      ScanRows(d, files, md5)[i].fullPath == PathOf(files[i]) && ScanRows(d, files, md5)[i].name == files[i].name
  {
    if files != [] {
      var n := |files| - 1;
      ReadableFilesAllScanned(d, files[..n], md5);
    }
  }

  /** In any walk, mixing readable and unreadable files, a file that exists,
      is readable and has a non-empty digest gets its row in the scan. */
  lemma {:induction false} ScannedFileHasRow(d: DiskState<Path>, files: seq<WalkEntry>, e: WalkEntry, md5: seq<Byte> -> string)
    requires e in files && ProcessFile(d, e, md5).Some?
    ensures ProcessFile(d, e, md5).value in ScanRows(d, files, md5)
  {
    var n := |files| - 1;
    if files[n] != e {
      assert e in files[..n] by {
        var k :| 0 <= k < |files| && files[k] == e;
        assert k < n && files[..n][k] == e;
      }
      ScannedFileHasRow(d, files[..n], e, md5);
    }
  }
}
