/** The `onepicture` run: scan the picture directory, copy every row whose
    fingerprint occurred earlier into the redundant directory, then copy the
    first row of every fingerprint into the timeline, in batches of
    `BatchSize`, keeping the two counters across batches. */
module OnePicture {
  import opened Maybe
  import opened Disk
  import opened KeepFirst
  import opened Scanner
  import Quarantine
  import Timeline

  const PictureDirectory: Path := ["Volumes", "DanExtDisk2", "photo_Timeline", "2024-08"]
  const RedundantDirectory: Path := ["Volumes", "DanExtDisk2", "onepicture_deleteme"]
  const TimelineDirectory: Path := ["Volumes", "DanExtDisk2", "Photo_Time_line"]

  /** `metadata_df.drop_duplicates(subset='FileHash')`. */
  function UniqueRows(rows: seq<Row>): seq<Row> {
    Select(rows, KeptPositions(Hashes(rows)))
  }

  /** The whole run on disk `d`, where `walk` is what `os.walk` yields for the
      picture directory. An escaping `PermissionError` ends the run. */
  function Run(d: DiskState<Path>, walk: seq<WalkEntry>, md5: seq<Byte> -> string): Outcome<Timeline.Progress> {
    var rows := ScanRows(d, Candidates(walk), md5);
    match Quarantine.Quarantined(d, RedundantDirectory, rows)
    case Raised(e) => Raised(e)
    case Done(d1) =>
      Timeline.BatchesFrom(Done(Timeline.Progress(d1, 0, 0)), Timeline.CreateTimeline(TimelineDirectory), UniqueRows(rows), Timeline.BatchSize, 0)
  }

  /** The disk a run leaves when an exception escapes: the quarantine
      directory `mkdir` raises before anything changes, and the timeline root
      `mkdir` raises in the first batch, after the quarantine copies and
      before any timeline copy. */
  function DiskOnEscape(d: DiskState<Path>, walk: seq<WalkEntry>, md5: seq<Byte> -> string): (d2: DiskState<Path>)
    ensures Grows(d, d2)
  {
    var rows := ScanRows(d, Candidates(walk), md5);
    match Quarantine.Quarantined(d, RedundantDirectory, rows)
    case Raised(_) => d
    case Done(d1) =>
      Quarantine.QuarantineNeverOverwrites(d, RedundantDirectory, rows);
      d1
  }

  method RunOnePicture(vol: Volume<Path>, walk: seq<WalkEntry>, md5: seq<Byte> -> string)
    returns (copied: nat, skipped: nat, err: Option<Failure>)
    modifies vol
    ensures match Run(old(vol.State()), walk, md5)
      case Done(p) => err == None && vol.State() == p.disk && copied == p.copied && skipped == p.skipped
      case Raised(e) => err == Some(e) && vol.State() == DiskOnEscape(old(vol.State()), walk, md5)
  {
    copied, skipped := 0, 0;
    var metadata := MakeDataframeFromMetadata(vol, walk, md5);
    var unique := UniqueRows(metadata);
    err := Quarantine.MoveDuplicateFiles(vol, RedundantDirectory, metadata);
    if err.Some? {
      return;
    }
    Timeline.CreateTimelineIsTimelineStep(TimelineDirectory);
    copied, skipped, err := Timeline.ProcessInBatches(vol, unique, Timeline.BatchSize, TimelineDirectory, copied, skipped,
                                                      Timeline.CreateTimeline(TimelineDirectory));
  }

  /** The scanned rows split into those copied to the redundant directory and
      those offered to the timeline: each row goes to exactly one side, the
      timeline rows have pairwise distinct fingerprints, and every fingerprint
      of the scan is represented there by its first row. */
  lemma RowsSplit(rows: seq<Row>)
    ensures |Quarantine.Redundant(rows)| + |UniqueRows(rows)| == |rows|
    ensures forall a, b :: 0 <= a < b < |UniqueRows(rows)| ==> UniqueRows(rows)[a].hash != UniqueRows(rows)[b].hash
    ensures forall i :: 0 <= i < |rows| ==> exists u :: u in UniqueRows(rows) && u.hash == rows[i].hash
  {
    var keys := Hashes(rows);
    Partition(keys);
    forall a, b | 0 <= a < b < |UniqueRows(rows)|
      ensures UniqueRows(rows)[a].hash != UniqueRows(rows)[b].hash
    {
      KeptKeysDistinct(keys, a, b);
    }
    forall i | 0 <= i < |rows|
      ensures exists u :: u in UniqueRows(rows) && u.hash == rows[i].hash
    {
      KeptCoversEveryKey(keys, i);
      var k :| 0 <= k < |KeptPositions(keys)| && keys[KeptPositions(keys)[k]] == keys[i];
      assert UniqueRows(rows)[k] in UniqueRows(rows);
    }
  }

  /** A run that ends without an escaping exception never overwrites or removes
      a file, and its counters together never exceed the number of distinct
      fingerprints found. */
  lemma RunNeverOverwrites(d: DiskState<Path>, walk: seq<WalkEntry>, md5: seq<Byte> -> string)
    requires Run(d, walk, md5).Done?
    ensures var p := Run(d, walk, md5).value;
      Grows(d, p.disk)
      && p.copied + p.skipped <= |UniqueRows(ScanRows(d, Candidates(walk), md5))|
  {
    var rows := ScanRows(d, Candidates(walk), md5);
    var unique := UniqueRows(rows);
    var d1 := Quarantine.Quarantined(d, RedundantDirectory, rows).value;
    Quarantine.QuarantineNeverOverwrites(d, RedundantDirectory, rows);
    var p0 := Timeline.Progress(d1, 0, 0);
    if unique == [] {
      Timeline.NoRowsNoBatches(p0, Timeline.CreateTimeline(TimelineDirectory), Timeline.BatchSize);
    } else {
      Timeline.CreateTimelineIsTimelineStep(TimelineDirectory);
      Timeline.BatchingTransparent(p0, Timeline.CreateTimeline(TimelineDirectory), TimelineDirectory, unique, Timeline.BatchSize);
      var d2 := MakeDir(d1, TimelineDirectory).value;
      Timeline.PlaceAllAccounting(Timeline.Progress(d2, 0, 0), TimelineDirectory, unique);
      GrowsTransitive(d, d1, d2);
      GrowsTransitive(d, d2, Run(d, walk, md5).value.disk);
    }
  }

  /** When the two output directories and every path the run writes can be
      written, and every scanned file stays readable, the run raises nothing
      and each distinct fingerprint is counted exactly once: copied or skipped. */
  lemma HealthyRunCountsEveryFingerprint(d: DiskState<Path>, walk: seq<WalkEntry>, md5: seq<Byte> -> string)
    requires CanMakeDir(d, RedundantDirectory) && CanMakeDir(d, TimelineDirectory)
    requires var rows := ScanRows(d, Candidates(walk), md5);
      Timeline.PlacementsCanSucceed(d, TimelineDirectory, UniqueRows(rows))
    ensures Run(d, walk, md5).Done?
    ensures Run(d, walk, md5).value.copied + Run(d, walk, md5).value.skipped
         == |UniqueRows(ScanRows(d, Candidates(walk), md5))|
  {
    var rows := ScanRows(d, Candidates(walk), md5);
    var unique := UniqueRows(rows);
    var d1 := Quarantine.Quarantined(d, RedundantDirectory, rows).value;
    Quarantine.QuarantineNeverOverwrites(d, RedundantDirectory, rows);
    var p0 := Timeline.Progress(d1, 0, 0);
    if unique == [] {
      Timeline.NoRowsNoBatches(p0, Timeline.CreateTimeline(TimelineDirectory), Timeline.BatchSize);
    } else {
      Timeline.CreateTimelineIsTimelineStep(TimelineDirectory);
      Timeline.BatchingTransparent(p0, Timeline.CreateTimeline(TimelineDirectory), TimelineDirectory, unique, Timeline.BatchSize);
      var d2 := MakeDir(d1, TimelineDirectory).value;
      GrowsTransitive(d, d1, d2);
      assert Timeline.PlacementsCanSucceed(d2, TimelineDirectory, unique);
      Timeline.PlaceAllComplete(Timeline.Progress(d2, 0, 0), TimelineDirectory, unique);
    }
  }
}
