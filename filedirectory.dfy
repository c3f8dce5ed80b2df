/** The legacy listing script `1_FileDirectory.py`: walk the picture tree and
    build one listing row per file, numbered by a generator that yields
    `1 .. 999999`, with the file's intended timeline path and a `CheckField`
    made of its name and its size text. */
module FileDirectory {
  import opened Maybe
  import opened Decimal
  import opened Calendar

  const TimeLineDir: string := "E:\\Photo_Time_Line"
  /** `rowID_gen(1000000)`: `range(1, 1000000)` stops before its bound. */
  const RowIdBound: nat := 1000000

  /** `rowID_gen(n)`: a generator over `range(1, n)`; `next()` on it after the
      last value raises `StopIteration`, here `None`. */
  class RowIdGenerator {
    var next: nat
    const stop: nat

    constructor (n: nat)
      ensures next == 1 && stop == n
    {
      next := 1;
      stop := n;
    }

    method Next() returns (id: Option<nat>)
      modifies this
      ensures old(next) < stop ==> id == Some(old(next)) && next == old(next) + 1
      ensures old(next) >= stop ==> id == None && next == old(next)
    {
      if next < stop {
        id := Some(next);
        next := next + 1;
      } else {
        id := None;
      }
    }
  }

  /** What `os.stat` reports about a file: its modification time (already
      turned into local time by `fromtimestamp`) and its size in bytes. */
  datatype FileStat = FileStat(name: string, modified: DateTime, sizeBytes: nat)

  /** One `(root, dirs, filenames)` triple of `os.walk`, with each file's stat. */
  datatype WalkDir = WalkDir(root: string, files: seq<FileStat>)

  datatype WalkFile = WalkFile(root: string, stat: FileStat)

  /** One listing row: `rID`, `Filename`, `Directory`, `Length`, `SizeKB`,
      the modification time behind `ModifiedTime` and `yyyymm_dir`, and
      `CheckField`. */
  datatype ListingRow = ListingRow(
    rID: nat, filename: string, directory: string,
    length: nat, sizeKB: string, modified: DateTime, checkField: string)

  /** The `ModifiedTime` column: `str(datetime)`. */
  function ModifiedTime(r: ListingRow): string {
    IsoText(r.modified, ' ')
  }

  /** The `yyyymm_dir` column: the timeline root, the first seven characters
      of `ModifiedTime`, the file name. */
  function YyyymmDir(r: ListingRow): string {
    TimeLineDir + "\\" + ModifiedTime(r)[..7] + "\\" + r.filename
  }

  /** The outcome of the script: the rows it writes, or `StopIteration` from
      the exhausted generator, which ends it before anything is written. */
  datatype Listing = Written(rows: seq<ListingRow>) | Stopped

  predicate IsSep(c: char) { c == '\\' || c == '/' }

  /** `os.path.join(root, name)` on Windows, for a plain file name `name`:
      a separator is inserted unless `root` is empty, already ends in one, or
      is a bare drive such as `E:`. */
  function Join(root: string, name: string): (p: string)
    ensures |p| == |root| + |name| || |p| == |root| + 1 + |name|
    ensures p[..|root|] == root && p[|p| - |name|..] == name
    ensures |p| == |root| + 1 + |name| <==> !(root == [] || IsSep(root[|root| - 1]) || (|root| == 2 && root[1] == ':'))
    ensures |p| == |root| + 1 + |name| ==> p[|root|] == '\\'
  {
    if root == [] || IsSep(root[|root| - 1]) || (|root| == 2 && root[1] == ':') then root + name
    else root + "\\" + name
  }

  /** The files of the walk, directory by directory, in walk order. */
  function Flatten(walk: seq<WalkDir>): seq<WalkFile> {
    if walk == [] then []
    else
      var n := |walk| - 1;
      Flatten(walk[..n]) + FilesOf(walk[n])
  }

  function FilesOf(w: WalkDir): (fs: seq<WalkFile>)
    ensures |fs| == |w.files| && forall j :: 0 <= j < |fs| ==> fs[j] == WalkFile(w.root, w.files[j])
  {
    seq(|w.files|, j requires 0 <= j < |w.files| => WalkFile(w.root, w.files[j]))
  }

  /** The row built for file `f` under id `rID`; `kbText` stands for
      `str(st_size / 1024)`, Python's text of a float. */
  function MakeRow(rID: nat, f: WalkFile, kbText: nat -> string): ListingRow {
    var directory := Join(f.root, f.stat.name);
    var sizeKB := kbText(f.stat.sizeBytes);
    ListingRow(rID, f.stat.name, directory, |directory|, sizeKB, f.stat.modified, f.stat.name + sizeKB)
  }

  /** The rows for `files`, numbered from 1 in walk order. */
  function ListingRows(files: seq<WalkFile>, kbText: nat -> string): (rows: seq<ListingRow>)
    ensures |rows| == |files|
  {
    if files == [] then []
    else
      var n := |files| - 1;
      ListingRows(files[..n], kbText) + [MakeRow(n + 1, files[n], kbText)]
  }

  /** The script: rows for every file of the walk when there are fewer than
      `RowIdBound` of them, `StopIteration` otherwise. */
  function ListingOf(walk: seq<WalkDir>, kbText: nat -> string): (l: Listing)
    ensures l.Written? <==> |Flatten(walk)| < RowIdBound
    ensures l.Written? ==> |l.rows| == |Flatten(walk)|
  {
    var files := Flatten(walk);
    if |files| < RowIdBound then Written(ListingRows(files, kbText)) else Stopped
  }

  lemma {:induction false} FlattenConcat(a: seq<WalkDir>, b: seq<WalkDir>)
    ensures Flatten(a + b) == Flatten(a) + Flatten(b)
    decreases |b|
  {
    if b == [] {
      assert a + b == a;
    } else {
      var n := |b| - 1;
      var ab := a + b;
      assert ab[..|ab| - 1] == a + b[..n] && ab[|ab| - 1] == b[n];
      FlattenConcat(a, b[..n]);
      calc {
        Flatten(ab);
        Flatten(a + b[..n]) + FilesOf(b[n]);
        (Flatten(a) + Flatten(b[..n])) + FilesOf(b[n]);
        Flatten(a) + (Flatten(b[..n]) + FilesOf(b[n]));
        Flatten(a) + Flatten(b);
      }
    }
  }

  lemma ListingRowsSnoc(files: seq<WalkFile>, f: WalkFile, kbText: nat -> string)
    ensures ListingRows(files + [f], kbText) == ListingRows(files, kbText) + [MakeRow(|files| + 1, f, kbText)]
  {
    assert (files + [f])[..|files|] == files;
  }

  lemma ExtendTake<T>(a: seq<T>, b: seq<T>, j: nat)
    requires j < |b|
    ensures a + b[..j + 1] == (a + b[..j]) + [b[j]]
  {
    assert b[..j + 1] == b[..j] + [b[j]];
  }

  lemma FlattenStep(walk: seq<WalkDir>, i: nat)
    requires i < |walk|
    ensures Flatten(walk[..i + 1]) == Flatten(walk[..i]) + FilesOf(walk[i])
    ensures |Flatten(walk[..i + 1])| <= |Flatten(walk)|
  {
    assert walk[..i + 1][..i] == walk[..i];
    assert walk == walk[..i + 1] + walk[i + 1..];
    FlattenConcat(walk[..i + 1], walk[i + 1..]);
  }

  /** The inner loop of the script over one directory's files: each takes
      the generator's next id; an exhausted generator stops the listing. */
  method ListFiles(rowID: RowIdGenerator, fs: seq<WalkFile>, kbText: nat -> string,
                   csvlist: seq<ListingRow>, ghost listed: seq<WalkFile>)
    returns (out: seq<ListingRow>, stopped: bool)
    requires csvlist == ListingRows(listed, kbText)
    requires rowID.next == |listed| + 1 <= rowID.stop
    modifies rowID
    ensures !stopped ==> out == ListingRows(listed + fs, kbText) && rowID.next == |listed + fs| + 1 <= rowID.stop
    ensures stopped ==> |listed + fs| >= rowID.stop
  {
    out := csvlist;
    ghost var now := listed;
    var j := 0;
    while j < |fs|
      invariant 0 <= j <= |fs|
      invariant now == listed + fs[..j]
      invariant out == ListingRows(now, kbText)
      invariant rowID.next == |now| + 1 <= rowID.stop
    {
      var rID := rowID.Next();
      if rID.None? {
        return out, true;
      }
      ListingRowsSnoc(now, fs[j], kbText);
      out := out + [MakeRow(rID.value, fs[j], kbText)];
      ExtendTake(listed, fs, j);
      now := now + [fs[j]];
      j := j + 1;
    }
    assert fs[..j] == fs;
    stopped := false;
  }

  method ExportListing(walk: seq<WalkDir>, kbText: nat -> string) returns (result: Listing)
    ensures result == ListingOf(walk, kbText)
  {
    var rowID := new RowIdGenerator(RowIdBound);
    var csvlist: seq<ListingRow> := [];
    var i := 0;
    while i < |walk|
      invariant 0 <= i <= |walk|
      invariant csvlist == ListingRows(Flatten(walk[..i]), kbText)
      invariant rowID.next == |Flatten(walk[..i])| + 1 <= rowID.stop == RowIdBound
    {
      var stopped;
      csvlist, stopped := ListFiles(rowID, FilesOf(walk[i]), kbText, csvlist, Flatten(walk[..i]));
      FlattenStep(walk, i);
      if stopped {
        return Stopped;
      }
      i := i + 1;
    }
    assert walk[..i] == walk;
    result := Written(csvlist);
  }

  /** Row `k` of the listing is the row of file `k` of the walk, under id
      `k + 1`: nothing is dropped, reordered or renumbered. */
  lemma {:induction false} ListingRowsAt(files: seq<WalkFile>, kbText: nat -> string)
    ensures forall k :: 0 <= k < |files| ==> ListingRows(files, kbText)[k] == MakeRow(k + 1, files[k], kbText)
  {
    if files != [] {
      ListingRowsAt(files[..|files| - 1], kbText);
    }
  }

  /** Row `k` describes file `k` of the walk under id `k + 1`: its name, its
      joined path and that path's length. */
  lemma RowsFollowWalk(files: seq<WalkFile>, kbText: nat -> string, k: nat)
    requires k < |files|
    ensures var r := ListingRows(files, kbText)[k];
      && r.rID == k + 1
      && r.filename == files[k].stat.name
      && r.directory == Join(files[k].root, files[k].stat.name)
      && r.length == |r.directory|
  {
    ListingRowsAt(files, kbText);
  }

  /** Row ids are unique: the generator never yields a value twice. */
  lemma RowIdsDistinct(files: seq<WalkFile>, kbText: nat -> string, a: nat, b: nat)
    requires a < b < |files|
    ensures ListingRows(files, kbText)[a].rID != ListingRows(files, kbText)[b].rID
  {
    RowsFollowWalk(files, kbText, a);
    RowsFollowWalk(files, kbText, b);
  }

  /** The timeline path of a row is the timeline root, then the year and
      month of the file's modification time as `YYYY-MM`, then the file name;
      the month folder is the first seven characters of `ModifiedTime`. */
  lemma TimelinePathOfRow(rID: nat, f: WalkFile, kbText: nat -> string)
    ensures var r := MakeRow(rID, f, kbText);
      var ym := YearMonth(f.stat.modified);
      && YyyymmDir(r) == TimeLineDir + "\\" + ym + "\\" + r.filename
      && ModifiedTime(r)[..7] == ym
      && Value(ym[..4]) == f.stat.modified.year && Value(ym[5..]) == f.stat.modified.month
  {
    IsoTextPrefix(f.stat.modified, ' ');
    YearMonthShape(f.stat.modified);
  }

  /** The script writes every walked file, with nothing filtered, as long as
      the generator lasts: `Thumbs.db` rows are listed too. */
  lemma ListingKeepsEveryFile(walk: seq<WalkDir>, kbText: nat -> string)
    requires |Flatten(walk)| < RowIdBound
    ensures ListingOf(walk, kbText).Written?
    ensures |ListingOf(walk, kbText).rows| == |Flatten(walk)|
  {
  }

  /** `CheckField` glues the name to the size text without a separator, so a
      file named `name + c` whose size text is `k` and a file named `name`
      whose size text is `c + k` share one check field (`IMG1` of size `2.0`
      and `IMG` of size `12.0`, say). */
  lemma CheckFieldAmbiguous(root: string, t: DateTime, kbText: nat -> string, name: string, c: char, s1: nat, s2: nat)
    requires kbText(s2) == [c] + kbText(s1)
    ensures var r1 := MakeRow(1, WalkFile(root, FileStat(name + [c], t, s1)), kbText);
      var r2 := MakeRow(2, WalkFile(root, FileStat(name, t, s2)), kbText);
      r1.filename != r2.filename && r1.checkField == r2.checkField
  {
    assert (name + [c]) + kbText(s1) == name + ([c] + kbText(s1));
    assert |name + [c]| != |name|;
  }
}
