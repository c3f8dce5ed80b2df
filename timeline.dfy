/** `create_timeline_directories` and `process_in_batches`: each unique row is
    copied to `timeline/<YYYY-MM>/<Filename>` unless that path exists, and the
    `copied_files` / `skipped_files` counters are carried across fixed-size
    batches of the unique rows. */
module Timeline {
  import opened Maybe
  import opened Calendar
  import opened Disk
  import opened Scanner

  const BatchSize: nat := 1000

  /** The disk together with the two global counters. */
  datatype Progress = Progress(disk: DiskState<Path>, copied: nat, skipped: nat)

  /** What happened to one row: copied, counted as skipped, or an error was
      caught and neither counter moved. */
  datatype Fate = Copied | Skipped | Failed

  datatype Placement = Placement(fate: Fate, disk: DiskState<Path>)

  /** `timeline_root / modified_time.strftime('%Y-%m')`. */
  function MonthDir(root: Path, r: Row): Path {
    root + [YearMonth(r.modified)]
  }

  /** `destination_dir / row['Filename']`. */
  function Destination(root: Path, r: Row): Path {
    MonthDir(root, r) + [r.name]
  }

  /** One iteration of the loop: skip an existing destination; otherwise make
      the month directory and copy. A `FileNotFoundError` or `PermissionError`
      from either step is caught; a directory made before a failed copy stays. */
  function PlaceRow(d: DiskState<Path>, root: Path, r: Row): Placement {
    var dst := Destination(root, r);
    if Exists(d, dst) then Placement(Skipped, d)
    else match MakeDir(d, MonthDir(root, r))
      case Raised(_) => Placement(Failed, d)
      case Done(d1) =>
        match Copy(d1, r.fullPath, dst)
        case Raised(_) => Placement(Failed, d1)
        case Done(d2) => Placement(Copied, d2)
  }

  function Tally(p: Progress, pl: Placement): Progress {
    match pl.fate
    case Copied => Progress(pl.disk, p.copied + 1, p.skipped)
    case Skipped => Progress(pl.disk, p.copied, p.skipped + 1)
    case Failed => Progress(pl.disk, p.copied, p.skipped)
  }

  /** The loop over `unique_files_df.iterrows()`, in order. */
  function PlaceAll(p: Progress, root: Path, rows: seq<Row>): Progress {
    if rows == [] then p
    else
      var n := |rows| - 1;
      var q := PlaceAll(p, root, rows[..n]);
      Tally(q, PlaceRow(q.disk, root, rows[n]))
  }

  /** `create_timeline_directories(rows, root, copied, skipped)`: the timeline
      root is made outside the `try`, so a `PermissionError` there escapes. */
  function TimelineAfter(p: Progress, root: Path, rows: seq<Row>): (o: Outcome<Progress>)
    ensures o.Raised? <==> root !in p.disk.dirs && root in p.disk.locked
  {
    match MakeDir(p.disk, root)
    case Raised(e) => Raised(e)
    case Done(d1) => Done(PlaceAll(Progress(d1, p.copied, p.skipped), root, rows))
  }

  function Min(a: nat, b: nat): nat {
    if a <= b then a else b
  }

  /** What a `process_function` does to the disk and the counters with one
      batch: finish, or let an exception escape. */
  type BatchStep = (Progress, seq<Row>) -> Outcome<Progress>

  /** `process_batch` in `main`: `create_timeline_directories` on `root`. */
  function CreateTimeline(root: Path): BatchStep {
    (p: Progress, batch: seq<Row>) => TimelineAfter(p, root, batch)
  }

  /** `step` does to every batch what `create_timeline_directories` on `root`
      does. */
  ghost predicate IsTimelineStep(step: BatchStep, root: Path) {
    forall p, batch {:trigger TimelineAfter(p, root, batch)} :: step(p, batch) == TimelineAfter(p, root, batch)
  }

  /** `process_in_batches(df, size, step)`: the slices
      `rows[start : start + size]` for `start = 0, size, 2 * size, ...`, each
      handed to `step` with the counters so far; an escaping exception ends
      the loop. */
  function BatchesFrom(o: Outcome<Progress>, step: BatchStep, rows: seq<Row>, size: nat, start: nat): Outcome<Progress>
    requires size > 0
    decreases |rows| - start
  {
    if start >= |rows| then o
    else match o
      case Raised(_) => o
      case Done(p) =>
        BatchesFrom(step(p, rows[start..Min(start + size, |rows|)]), step, rows, size, start + size)
  }

  method CreateTimelineDirectories(vol: Volume<Path>, rows: seq<Row>, root: Path, copied: nat, skipped: nat)
    returns (copiedOut: nat, skippedOut: nat, err: Option<Failure>)
    modifies vol
    ensures match TimelineAfter(Progress(old(vol.State()), copied, skipped), root, rows)
      case Done(p) => err == None && vol.State() == p.disk && copiedOut == p.copied && skippedOut == p.skipped
      case Raised(e) => err == Some(e) && vol.State() == old(vol.State()) && copiedOut == copied && skippedOut == skipped
    ensures err.Some? <==> root !in old(vol.dirs) && root in vol.locked
    ensures err == None ==> root in vol.dirs
  {
    copiedOut, skippedOut := copied, skipped;
    err := vol.MakeDirs(root);
    if err.Some? {
      return;
    }
    ghost var start := Progress(vol.State(), copied, skipped);
    var i := 0;
    while i < |rows|
      invariant 0 <= i <= |rows|
      invariant PlaceAll(start, root, rows[..i]) == Progress(vol.State(), copiedOut, skippedOut)
      invariant root in vol.dirs
    {
      PlaceAllStep(start, root, rows, i);
      PlaceRowGrows(vol.State(), root, rows[i]);
      copiedOut, skippedOut := PlaceOne(vol, rows[i], root, copiedOut, skippedOut);
      i := i + 1;
    }
    assert rows[..i] == rows;
  }

  /** One iteration of the loop in `create_timeline_directories`. */
  method PlaceOne(vol: Volume<Path>, row: Row, root: Path, copied: nat, skipped: nat)
    returns (copiedOut: nat, skippedOut: nat)
    modifies vol
    ensures Tally(Progress(old(vol.State()), copied, skipped), PlaceRow(old(vol.State()), root, row))
         == Progress(vol.State(), copiedOut, skippedOut)
  {
    copiedOut, skippedOut := copied, skipped;
    var dir := MonthDir(root, row);
    var dst := dir + [row.name];
    var present := vol.PathExists(dst);
    if !present {
      var e := vol.MakeDirs(dir);
      if e == None {
        e := vol.Copy2(row.fullPath, dst);
        if e == None {
          copiedOut := copiedOut + 1;
        }
      }
    } else {
      skippedOut := skippedOut + 1;
    }
  }

  /** One pass of the batch loop: the batch `rows[start..start + size]`
      through `create_timeline_directories`, as `BatchesFrom` takes it on the
      way to the outcome `target` of the whole loop. */
  method ProcessBatch(vol: Volume<Path>, rows: seq<Row>, size: nat, root: Path, start: nat, copied: nat, skipped: nat,
                      ghost step: BatchStep, ghost target: Outcome<Progress>)
    returns (copiedOut: nat, skippedOut: nat, err: Option<Failure>)
    requires size > 0 && start < |rows| && IsTimelineStep(step, root)
    requires BatchesFrom(Done(Progress(vol.State(), copied, skipped)), step, rows, size, start) == target
    modifies vol
    ensures err == None ==> BatchesFrom(Done(Progress(vol.State(), copiedOut, skippedOut)), step, rows, size, start + size) == target
    ensures err.Some? ==> target == Raised(err.value)
    ensures err.Some? ==> vol.State() == old(vol.State()) && copiedOut == copied && skippedOut == skipped
    ensures err.Some? <==> root !in old(vol.dirs) && root in vol.locked
    ensures err == None ==> root in vol.dirs
  {
    var batch := rows[start..Min(start + size, |rows|)];
    ghost var before := Progress(vol.State(), copied, skipped);
    BatchesFromStep(before, step, rows, size, start);
    copiedOut, skippedOut, err := CreateTimelineDirectories(vol, batch, root, copied, skipped);
    assert step(before, batch) == TimelineAfter(before, root, batch);
    if err.Some? {
      BatchesFromRaised(err.value, step, rows, size, start + size);
    }
  }

  /** `process_in_batches(unique_files_df, size, process_batch)`, where the
      process function is `create_timeline_directories` on `root` and `step`
      is what it does. */
  method ProcessInBatches(vol: Volume<Path>, rows: seq<Row>, size: nat, root: Path, copied: nat, skipped: nat,
                          ghost step: BatchStep)
    returns (copiedOut: nat, skippedOut: nat, err: Option<Failure>)
    requires size > 0 && IsTimelineStep(step, root)
    modifies vol
    ensures err == None ==>
      BatchesFrom(Done(Progress(old(vol.State()), copied, skipped)), step, rows, size, 0) == Done(Progress(vol.State(), copiedOut, skippedOut))
    ensures err.Some? ==> BatchesFrom(Done(Progress(old(vol.State()), copied, skipped)), step, rows, size, 0) == Raised(err.value)
    ensures err.Some? ==> vol.State() == old(vol.State()) && copiedOut == copied && skippedOut == skipped
  {
    copiedOut, skippedOut, err := copied, skipped, None;
    ghost var target := BatchesFrom(Done(Progress(vol.State(), copied, skipped)), step, rows, size, 0);
    var start := 0;
    while start < |rows|
      invariant BatchesFrom(Done(Progress(vol.State(), copiedOut, skippedOut)), step, rows, size, start) == target
      invariant start > 0 ==> root in vol.dirs
      invariant start == 0 ==> vol.State() == old(vol.State()) && copiedOut == copied && skippedOut == skipped
      invariant err == None
      decreases |rows| - start
    {
      var e;
      copiedOut, skippedOut, e := ProcessBatch(vol, rows, size, root, start, copiedOut, skippedOut, step, target);
      if e.Some? {
        err := e;
        return;
      }
      start := start + size;
    }
  }

  // ---------------------------------------------------------------------------
  // Properties of the specification functions

  lemma PlaceAllStep(p: Progress, root: Path, rows: seq<Row>, i: nat)
    requires i < |rows|
    ensures var q := PlaceAll(p, root, rows[..i]);
      PlaceAll(p, root, rows[..i + 1]) == Tally(q, PlaceRow(q.disk, root, rows[i]))
  {
    assert rows[..i + 1][..i] == rows[..i];
  }

  lemma PlaceRowGrows(d: DiskState<Path>, root: Path, r: Row)
    ensures Grows(d, PlaceRow(d, root, r).disk)
    ensures PlaceRow(d, root, r).fate == Copied ==>
      r.fullPath in d.files && Destination(root, r) in PlaceRow(d, root, r).disk.files
      && PlaceRow(d, root, r).disk.files[Destination(root, r)] == d.files[r.fullPath]
  {
  }

  lemma {:induction false} PlaceAllConcat(p: Progress, root: Path, a: seq<Row>, b: seq<Row>)
    ensures PlaceAll(p, root, a + b) == PlaceAll(PlaceAll(p, root, a), root, b)
    decreases |b|
  {
    if b == [] {
      assert a + b == a;
    } else {
      var n := |b| - 1;
      assert (a + b)[..|a + b| - 1] == a + b[..n];
      PlaceAllConcat(p, root, a, b[..n]);
    }
  }

  /** The copy loop never overwrites or removes a file, the counters only grow,
      and together they grow by at most one per row. */
  lemma {:induction false} PlaceAllAccounting(p: Progress, root: Path, rows: seq<Row>)
    ensures var q := PlaceAll(p, root, rows);
      && Grows(p.disk, q.disk)
      && q.copied >= p.copied && q.skipped >= p.skipped
      && (q.copied - p.copied) + (q.skipped - p.skipped) <= |rows|
  {
    if rows != [] {
      var n := |rows| - 1;
      var q := PlaceAll(p, root, rows[..n]);
      PlaceAllAccounting(p, root, rows[..n]);
      PlaceRowGrows(q.disk, root, rows[n]);
      GrowsTransitive(p.disk, q.disk, PlaceAll(p, root, rows).disk);
    }
  }

  /** Two rows land on the same timeline path exactly when they have the same
      filename and were modified in the same year and month. */
  lemma DestinationsCollide(root: Path, r1: Row, r2: Row)
    ensures Destination(root, r1) == Destination(root, r2) <==>
      r1.name == r2.name && r1.modified.year == r2.modified.year && r1.modified.month == r2.modified.month
  {
    YearMonthInjective(r1.modified, r2.modified);
    if Destination(root, r1) == Destination(root, r2) {
      assert Destination(root, r1)[|root|] == YearMonth(r1.modified);
      assert Destination(root, r2)[|root|] == YearMonth(r2.modified);
      assert Destination(root, r1)[|root| + 1] == r1.name;
      assert Destination(root, r2)[|root| + 1] == r2.name;
    }
  }

  /** What a batch needs so that no row's copy raises. */
  ghost predicate PlacementsCanSucceed(d: DiskState<Path>, root: Path, rows: seq<Row>) {
    forall r :: r in rows ==>
      && r.fullPath in d.files && r.fullPath !in d.locked
      && CanMakeDir(d, MonthDir(root, r)) && Destination(root, r) !in d.locked
  }

  /** A row whose copy cannot raise moves one counter and leaves its
      destination in place. */
  lemma PlaceRowSucceeds(d: DiskState<Path>, root: Path, r: Row)
    requires r.fullPath in d.files && r.fullPath !in d.locked
    requires CanMakeDir(d, MonthDir(root, r)) && Destination(root, r) !in d.locked
    ensures PlaceRow(d, root, r).fate != Failed
    ensures Exists(PlaceRow(d, root, r).disk, Destination(root, r))
  {
  }

  lemma ExistsPersists(d1: DiskState<Path>, d2: DiskState<Path>, p: Path)
    requires Grows(d1, d2) && Exists(d1, p)
    ensures Exists(d2, p)
  {
  }

  /** When nothing raises, every row moves exactly one counter and ends with
      its destination in place. */
  lemma {:induction false} PlaceAllComplete(p: Progress, root: Path, rows: seq<Row>)
    requires PlacementsCanSucceed(p.disk, root, rows)
    ensures var q := PlaceAll(p, root, rows);
      && (q.copied - p.copied) + (q.skipped - p.skipped) == |rows|
      && forall r :: r in rows ==> Exists(q.disk, Destination(root, r))
  {
    if rows != [] {
      var n := |rows| - 1;
      var q := PlaceAll(p, root, rows[..n]);
      var e := PlaceAll(p, root, rows);
      assert PlacementsCanSucceed(p.disk, root, rows[..n]) by {
        forall r | r in rows[..n] ensures r in rows {}
      }
      PlaceAllComplete(p, root, rows[..n]);
      PlaceAllAccounting(p, root, rows[..n]);
      assert rows[n] in rows;
      PlaceRowSucceeds(q.disk, root, rows[n]);
      PlaceRowGrows(q.disk, root, rows[n]);
      forall r | r in rows ensures Exists(e.disk, Destination(root, r)) {
        if r != rows[n] {
          assert r in rows[..n];
          ExistsPersists(q.disk, e.disk, Destination(root, r));
        }
      }
    }
  }

  /** A pass over rows whose destinations all exist copies nothing, changes
      nothing on disk and counts every row as skipped. */
  lemma {:induction false} PlaceAllWhenPresent(p: Progress, root: Path, rows: seq<Row>)
    requires forall r :: r in rows ==> Exists(p.disk, Destination(root, r))
    ensures PlaceAll(p, root, rows) == Progress(p.disk, p.copied, p.skipped + |rows|)
  {
    if rows != [] {
      var n := |rows| - 1;
      assert forall r :: r in rows[..n] ==> r in rows;
      PlaceAllWhenPresent(p, root, rows[..n]);
    }
  }

  /** A second run of `create_timeline_directories` over the same rows, after
      a first run in which nothing raised, copies nothing and changes nothing
      on disk: every row is counted as skipped. */
  lemma TimelineIdempotent(p: Progress, root: Path, rows: seq<Row>, copied: nat, skipped: nat)
    requires CanMakeDir(p.disk, root)
    requires PlacementsCanSucceed(p.disk, root, rows)
    ensures TimelineAfter(p, root, rows).Done?
    ensures var d := TimelineAfter(p, root, rows).value.disk;
      TimelineAfter(Progress(d, copied, skipped), root, rows) == Done(Progress(d, copied, skipped + |rows|))
  {
    FirstRunPlacesAll(p, root, rows);
    RerunSkipsAll(TimelineAfter(p, root, rows).value.disk, root, rows, copied, skipped);
  }

  /** A run in which nothing can raise leaves the root and every destination
      in place. */
  lemma FirstRunPlacesAll(p: Progress, root: Path, rows: seq<Row>)
    requires CanMakeDir(p.disk, root)
    requires PlacementsCanSucceed(p.disk, root, rows)
    ensures TimelineAfter(p, root, rows).Done?
    ensures var d := TimelineAfter(p, root, rows).value.disk;
      && root in d.dirs && d.locked == p.disk.locked
      && forall r :: r in rows ==> Exists(d, Destination(root, r))
  {
    var d1 := MakeDir(p.disk, root).value;
    assert d1 == p.disk.(dirs := p.disk.dirs + {root});
    var p1 := Progress(d1, p.copied, p.skipped);
    assert PlacementsCanSucceed(d1, root, rows);
    PlaceAllComplete(p1, root, rows);
    PlaceAllAccounting(p1, root, rows);
  }

  /** A run over rows whose root and destinations are all in place only counts
      skips. */
  lemma RerunSkipsAll(d: DiskState<Path>, root: Path, rows: seq<Row>, copied: nat, skipped: nat)
    requires root in d.dirs
    requires forall r :: r in rows ==> Exists(d, Destination(root, r))
    ensures TimelineAfter(Progress(d, copied, skipped), root, rows) == Done(Progress(d, copied, skipped + |rows|))
  {
    PlaceAllWhenPresent(Progress(d, copied, skipped), root, rows);
  }

  /** The fate of row `k` in a pass over `rows`. */
  function FateAt(p: Progress, root: Path, rows: seq<Row>, k: nat): Fate
    requires k < |rows|
  {
    PlaceRow(PlaceAll(p, root, rows[..k]).disk, root, rows[k]).fate
  }

  /** Once a row has been copied or found in place, every later row with the
      same destination (same filename, same month) is counted as skipped and
      never overwrites it. */
  lemma LaterCollisionSkipped(p: Progress, root: Path, rows: seq<Row>, i: nat, j: nat)
    requires i < j < |rows|
    requires Destination(root, rows[i]) == Destination(root, rows[j])
    requires FateAt(p, root, rows, i) != Failed
    ensures FateAt(p, root, rows, j) == Skipped
  {
    var dst := Destination(root, rows[i]);
    PlacedRowLeavesDestination(p, root, rows, i);
    PlaceAllPrefixGrows(p, root, rows, i + 1, j);
    ExistsPersists(PlaceAll(p, root, rows[..i + 1]).disk, PlaceAll(p, root, rows[..j]).disk, dst);
  }

  /** A row that did not fail has its destination in place right after it. */
  lemma PlacedRowLeavesDestination(p: Progress, root: Path, rows: seq<Row>, i: nat)
    requires i < |rows| && FateAt(p, root, rows, i) != Failed
    ensures Exists(PlaceAll(p, root, rows[..i + 1]).disk, Destination(root, rows[i]))
  {
    PlaceAllStep(p, root, rows, i);
  }

  /** The disk only grows from one point of the pass to a later one. */
  lemma PlaceAllPrefixGrows(p: Progress, root: Path, rows: seq<Row>, a: nat, b: nat)
    requires a <= b <= |rows|
    ensures Grows(PlaceAll(p, root, rows[..a]).disk, PlaceAll(p, root, rows[..b]).disk)
  {
    assert rows[..b] == rows[..a] + rows[a..b];
    PlaceAllConcat(p, root, rows[..a], rows[a..b]);
    PlaceAllAccounting(PlaceAll(p, root, rows[..a]), root, rows[a..b]);
  }

  /** A copied row's timeline file holds exactly the source's bytes and time
      at the end of the pass. */
  lemma CopiedFileHoldsSource(p: Progress, root: Path, rows: seq<Row>, i: nat)
    requires i < |rows|
    requires FateAt(p, root, rows, i) == Copied
    requires rows[i].fullPath in p.disk.files
    ensures var dst := Destination(root, rows[i]);
      var q := PlaceAll(p, root, rows);
      dst in q.disk.files && q.disk.files[dst] == p.disk.files[rows[i].fullPath]
  {
    var src, dst := rows[i].fullPath, Destination(root, rows[i]);
    var qi := PlaceAll(p, root, rows[..i]);
    PlaceAllStep(p, root, rows, i);
    PlaceAllKeeps(p, root, rows[..i], src);
    PlaceRowGrows(qi.disk, root, rows[i]);
    var qi1 := PlaceAll(p, root, rows[..i + 1]);
    PlaceAllSplit(p, root, rows, i + 1);
    PlaceAllKeeps(qi1, root, rows[i + 1..], dst);
  }

  /** A file present before a pass is still there, unchanged, after it. */
  lemma PlaceAllKeeps(p: Progress, root: Path, rows: seq<Row>, path: Path)
    requires path in p.disk.files
    ensures path in PlaceAll(p, root, rows).disk.files
    ensures PlaceAll(p, root, rows).disk.files[path] == p.disk.files[path]
  {
    PlaceAllAccounting(p, root, rows);
  }

  lemma PlaceAllSplit(p: Progress, root: Path, rows: seq<Row>, j: nat)
    requires j <= |rows|
    ensures PlaceAll(p, root, rows) == PlaceAll(PlaceAll(p, root, rows[..j]), root, rows[j..])
  {
    assert rows == rows[..j] + rows[j..];
    PlaceAllConcat(p, root, rows[..j], rows[j..]);
  }

  lemma BatchesFromStep(p: Progress, step: BatchStep, rows: seq<Row>, size: nat, start: nat)
    requires size > 0 && start < |rows|
    ensures BatchesFrom(Done(p), step, rows, size, start)
         == BatchesFrom(step(p, rows[start..Min(start + size, |rows|)]), step, rows, size, start + size)
  {
  }

  lemma {:induction false} BatchesFromRaised(e: Failure, step: BatchStep, rows: seq<Row>, size: nat, start: nat)
    requires size > 0
    ensures BatchesFrom(Raised(e), step, rows, size, start) == Raised(e)
  {
  }

  lemma CreateTimelineIsTimelineStep(root: Path)
    ensures IsTimelineStep(CreateTimeline(root), root)
  {
  }

  /** A batch run when the root already exists is one pass over the batch. */
  lemma BatchOnRoot(q: Progress, step: BatchStep, root: Path, rows: seq<Row>, size: nat, start: nat)
    requires size > 0 && start < |rows| && IsTimelineStep(step, root)
    requires root in q.disk.dirs
    ensures var end := Min(start + size, |rows|);
      var q1 := PlaceAll(q, root, rows[start..end]);
      && BatchesFrom(Done(q), step, rows, size, start) == BatchesFrom(Done(q1), step, rows, size, end)
      && root in q1.disk.dirs && q1.disk.locked == q.disk.locked
  {
    var end := Min(start + size, |rows|);
    var batch := rows[start..end];
    var q1 := PlaceAll(q, root, batch);
    assert step(q, batch) == TimelineAfter(q, root, batch) == Done(q1);
    PlaceAllAccounting(q, root, batch);
    if end < start + size {
      assert BatchesFrom(Done(q1), step, rows, size, start + size) == Done(q1);
      assert BatchesFrom(Done(q1), step, rows, size, end) == Done(q1);
    }
  }

  lemma {:induction false} BatchesFromRest(q: Progress, step: BatchStep, root: Path, rows: seq<Row>, size: nat, start: nat)
    requires size > 0 && start <= |rows| && IsTimelineStep(step, root)
    requires root in q.disk.dirs
    ensures BatchesFrom(Done(q), step, rows, size, start) == Done(PlaceAll(q, root, rows[start..]))
    decreases |rows| - start
  {
    if start == |rows| {
      assert rows[start..] == [];
    } else {
      var end := Min(start + size, |rows|);
      var batch := rows[start..end];
      BatchOnRoot(q, step, root, rows, size, start);
      BatchesFromRest(PlaceAll(q, root, batch), step, root, rows, size, end);
      PlaceAllSuffix(q, root, rows, start, end);
    }
  }

  lemma PlaceAllSuffix(q: Progress, root: Path, rows: seq<Row>, start: nat, end: nat)
    requires start <= end <= |rows|
    ensures PlaceAll(q, root, rows[start..]) == PlaceAll(PlaceAll(q, root, rows[start..end]), root, rows[end..])
  {
    assert rows[start..] == rows[start..end] + rows[end..];
    PlaceAllConcat(q, root, rows[start..end], rows[end..]);
  }

  /** Batching is invisible: the batches visit every row once, in order, with
      the counters carried across, so processing a non-empty table in batches
      of any positive size ends exactly as one call over the whole table would. */
  lemma BatchingTransparent(p: Progress, step: BatchStep, root: Path, rows: seq<Row>, size: nat)
    requires size > 0 && rows != [] && IsTimelineStep(step, root)
    ensures BatchesFrom(Done(p), step, rows, size, 0) == TimelineAfter(p, root, rows)
  {
    var batch := rows[0..Min(size, |rows|)];
    assert step(p, batch) == TimelineAfter(p, root, batch);
    match MakeDir(p.disk, root)
    case Raised(e) =>
      BatchesFromRaised(e, step, rows, size, size);
    case Done(d1) =>
      FirstBatchThenRest(Progress(d1, p.copied, p.skipped), step, root, rows, size);
  }

  /** After the first batch has made the root, the rest follow as one pass. */
  lemma FirstBatchThenRest(p1: Progress, step: BatchStep, root: Path, rows: seq<Row>, size: nat)
    requires size > 0 && rows != [] && IsTimelineStep(step, root)
    requires root in p1.disk.dirs
    ensures BatchesFrom(Done(PlaceAll(p1, root, rows[0..Min(size, |rows|)])), step, rows, size, size)
         == Done(PlaceAll(p1, root, rows))
  {
    var end := Min(size, |rows|);
    assert rows[0..end] == rows[..end];
    var q := PlaceAll(p1, root, rows[..end]);
    PlaceAllAccounting(p1, root, rows[..end]);
    BatchesFromRest(q, step, root, rows, size, end);
    if end < size {
      assert BatchesFrom(Done(q), step, rows, size, size) == Done(q);
    }
    PlaceAllSplit(p1, root, rows, end);
  }

  /** With no unique rows no batch runs: not even the timeline root is made. */
  lemma NoRowsNoBatches(p: Progress, step: BatchStep, size: nat)
    requires size > 0
    ensures BatchesFrom(Done(p), step, [], size, 0) == Done(p)
  {
  }
}
