/** `move_duplicate_files`: every row whose hash already occurred earlier in
    the table is copied into the quarantine directory under the name
    `"{idx}_{Filename}"`, where `idx` is the row's position in the table; a
    destination that exists already is left alone. */
module Quarantine {
  import opened Maybe
  import opened Decimal
  import opened Disk
  import opened KeepFirst
  import opened Scanner

  /** `f"{idx}_{row['Filename']}"`. */
  function QuarantineName(idx: nat, filename: string): string {
    Dec(idx) + "_" + filename
  }

  function Destination(quarantine: Path, idx: nat, filename: string): Path {
    quarantine + [QuarantineName(idx, filename)]
  }

  /** The positions `duplicates_df` holds: rows flagged by `duplicated(keep='first')`. */
  function Redundant(rows: seq<Row>): (ps: seq<nat>)
    ensures forall k :: 0 <= k < |ps| ==> ps[k] < |rows|
  {
    DuplicatedPositions(Hashes(rows))
  }

  /** One iteration of the copy loop: copy unless the destination exists;
      `FileNotFoundError` and `PermissionError` are caught and change nothing. */
  function CopyOne(d: DiskState<Path>, quarantine: Path, idx: nat, r: Row): DiskState<Path> {
    var dst := Destination(quarantine, idx, r.name);
    if Exists(d, dst) then d
    else match Copy(d, r.fullPath, dst)
      case Done(d2) => d2
      case Raised(_) => d
  }

  /** The copy loop over the rows at positions `ps`, in order. */
  function CopyEach(d: DiskState<Path>, quarantine: Path, rows: seq<Row>, ps: seq<nat>): DiskState<Path>
    requires forall k :: 0 <= k < |ps| ==> ps[k] < |rows|
  {
    if ps == [] then d
    else
      var n := |ps| - 1;
      CopyOne(CopyEach(d, quarantine, rows, ps[..n]), quarantine, ps[n], rows[ps[n]])
  }

  /** `move_duplicate_files(metadata_df)`: the quarantine directory is created
      first, outside the `try`, so a `PermissionError` there ends the run. */
  function Quarantined(d: DiskState<Path>, quarantine: Path, rows: seq<Row>): (o: Outcome<DiskState<Path>>)
    ensures o.Raised? <==> quarantine !in d.dirs && quarantine in d.locked
  {
    match MakeDir(d, quarantine)
    case Raised(e) => Raised(e)
    case Done(d1) => Done(CopyEach(d1, quarantine, rows, Redundant(rows)))
  }

  method MoveDuplicateFiles(vol: Volume<Path>, quarantine: Path, rows: seq<Row>) returns (err: Option<Failure>)
    modifies vol
    ensures match Quarantined(old(vol.State()), quarantine, rows)
      case Done(d) => err == None && vol.State() == d
      case Raised(e) => err == Some(e) && vol.State() == old(vol.State())
  {
    err := vol.MakeDirs(quarantine);
    if err.Some? {
      return;
    }
    ghost var d1 := vol.State();
    var dups := Redundant(rows);
    var i := 0;
    while i < |dups|
      invariant 0 <= i <= |dups|
      invariant vol.State() == CopyEach(d1, quarantine, rows, dups[..i])
    {
      CopyEachStep(d1, quarantine, rows, dups, i);
      CopyToQuarantine(vol, quarantine, dups[i], rows[dups[i]]);
      i := i + 1;
    }
    assert dups[..i] == dups;
  }

  /** One iteration of the loop in `move_duplicate_files`. */
  method CopyToQuarantine(vol: Volume<Path>, quarantine: Path, idx: nat, row: Row)
    modifies vol
    ensures vol.State() == CopyOne(old(vol.State()), quarantine, idx, row)
  {
    var dst := Destination(quarantine, idx, row.name);
    var present := vol.PathExists(dst);
    if !present {
      var _ := vol.Copy2(row.fullPath, dst);
    }
  }

  lemma CopyEachStep(d: DiskState<Path>, quarantine: Path, rows: seq<Row>, ps: seq<nat>, i: nat)
    requires i < |ps| && forall k :: 0 <= k < |ps| ==> ps[k] < |rows|
    ensures CopyEach(d, quarantine, rows, ps[..i + 1])
         == CopyOne(CopyEach(d, quarantine, rows, ps[..i]), quarantine, ps[i], rows[ps[i]])
  {
    assert ps[..i + 1][..i] == ps[..i];
  }

  /** Quarantine names are unambiguous: the row position and the original
      filename can both be read back, so distinct rows never share a destination. */
  lemma QuarantineNameInjective(i: nat, a: string, j: nat, b: string)
    requires QuarantineName(i, a) == QuarantineName(j, b)
    ensures i == j && a == b
  {
    var s := QuarantineName(i, a);
    var di, dj := Dec(i), Dec(j);
    UnderscoreAfterDigits(di, a);
    UnderscoreAfterDigits(dj, b);
    assert |di| == |dj|;
    assert di == s[..|di|] == dj;
    DecInjective(i, j);
    assert a == s[|di| + 1..] == b;
  }

  /** In `D + "_" + a` with `D` all digits, the first underscore is at `|D|`. */
  lemma UnderscoreAfterDigits(D: string, a: string)
    requires IsDigits(D)
    ensures (D + "_" + a)[|D|] == '_'
    ensures forall k :: 0 <= k < |D| ==> (D + "_" + a)[k] != '_'
  {
  }

  lemma CopyOneGrows(d: DiskState<Path>, quarantine: Path, idx: nat, r: Row)
    ensures Grows(d, CopyOne(d, quarantine, idx, r))
    ensures forall p :: p in CopyOne(d, quarantine, idx, r).files ==>
      p in d.files || p == Destination(quarantine, idx, r.name)
    ensures CopyOne(d, quarantine, idx, r).dirs == d.dirs
  {
  }

  /** The copy loop never overwrites or removes a file, and the only new paths
      are the quarantine destinations of the rows it visits. */
  lemma {:induction false} CopyEachGrows(d: DiskState<Path>, quarantine: Path, rows: seq<Row>, ps: seq<nat>)
    requires forall k :: 0 <= k < |ps| ==> ps[k] < |rows|
    ensures Grows(d, CopyEach(d, quarantine, rows, ps))
    ensures CopyEach(d, quarantine, rows, ps).dirs == d.dirs
    ensures forall p :: p in CopyEach(d, quarantine, rows, ps).files ==>
      p in d.files || exists k :: 0 <= k < |ps| && p == Destination(quarantine, ps[k], rows[ps[k]].name)
  {
    if ps != [] {
      var n := |ps| - 1;
      var m := CopyEach(d, quarantine, rows, ps[..n]);
      CopyEachGrows(d, quarantine, rows, ps[..n]);
      CopyOneGrows(m, quarantine, ps[n], rows[ps[n]]);
      forall p | p in CopyEach(d, quarantine, rows, ps).files
        ensures p in d.files || exists k :: 0 <= k < |ps| && p == Destination(quarantine, ps[k], rows[ps[k]].name)
      {
        if p !in m.files {
          assert p == Destination(quarantine, ps[n], rows[ps[n]].name);
        } else if p !in d.files {
          var k :| 0 <= k < n && p == Destination(quarantine, ps[..n][k], rows[ps[..n][k]].name);
          assert ps[..n][k] == ps[k];
        }
      }
    }
  }

  /** No existing file is ever overwritten or removed by `move_duplicate_files`. */
  lemma QuarantineNeverOverwrites(d: DiskState<Path>, quarantine: Path, rows: seq<Row>)
    requires Quarantined(d, quarantine, rows).Done?
    ensures Grows(d, Quarantined(d, quarantine, rows).value)
  {
    var d1 := MakeDir(d, quarantine).value;
    CopyEachGrows(d1, quarantine, rows, Redundant(rows));
    GrowsTransitive(d, d1, Quarantined(d, quarantine, rows).value);
  }

  /** What a run needs so that no copy raises: every visited source present
      and readable, every destination writable. */
  ghost predicate CopiesCanSucceed(d: DiskState<Path>, quarantine: Path, rows: seq<Row>, ps: seq<nat>)
    requires forall k :: 0 <= k < |ps| ==> ps[k] < |rows|
  {
    forall k :: 0 <= k < |ps| ==>
      && rows[ps[k]].fullPath in d.files && rows[ps[k]].fullPath !in d.locked
      && Destination(quarantine, ps[k], rows[ps[k]].name) !in d.locked
  }

  /** Distinct row positions never share a quarantine destination. */
  lemma DestinationsDistinct(quarantine: Path, i: nat, a: string, j: nat, b: string)
    requires i != j
    ensures Destination(quarantine, i, a) != Destination(quarantine, j, b)
  {
    if Destination(quarantine, i, a) == Destination(quarantine, j, b) {
      assert Destination(quarantine, i, a)[|quarantine|] == QuarantineName(i, a);
      assert Destination(quarantine, j, b)[|quarantine|] == QuarantineName(j, b);
      QuarantineNameInjective(i, a, j, b);
    }
  }

  /** The last visited row's destination is not created by the earlier rows. */
  lemma LastDestinationFresh(d: DiskState<Path>, quarantine: Path, rows: seq<Row>, ps: seq<nat>)
    requires ps != [] && forall k :: 0 <= k < |ps| ==> ps[k] < |rows|
    requires forall k, l :: 0 <= k < l < |ps| ==> ps[k] < ps[l]
    ensures var n := |ps| - 1;
      var last := Destination(quarantine, ps[n], rows[ps[n]].name);
      !Exists(d, last) ==> !Exists(CopyEach(d, quarantine, rows, ps[..n]), last)
  {
    var n := |ps| - 1;
    var last := Destination(quarantine, ps[n], rows[ps[n]].name);
    CopyEachGrows(d, quarantine, rows, ps[..n]);
    forall k | 0 <= k < n
      ensures Destination(quarantine, ps[..n][k], rows[ps[..n][k]].name) != last
    {
      DestinationsDistinct(quarantine, ps[k], rows[ps[k]].name, ps[n], rows[ps[n]].name);
    }
  }

  /** After a copy loop that raises nothing, every destination exists, and a
      destination that was absent before now holds its source's bytes and time. */
  lemma {:induction false} CopyEachDelivers(d: DiskState<Path>, quarantine: Path, rows: seq<Row>, ps: seq<nat>)
    requires forall k :: 0 <= k < |ps| ==> ps[k] < |rows|
    requires forall k, l :: 0 <= k < l < |ps| ==> ps[k] < ps[l]
    requires CopiesCanSucceed(d, quarantine, rows, ps)
    ensures var e := CopyEach(d, quarantine, rows, ps);
      forall k :: 0 <= k < |ps| ==>
        var dst := Destination(quarantine, ps[k], rows[ps[k]].name);
        && Exists(e, dst)
        && (!Exists(d, dst) ==> dst in e.files && e.files[dst] == d.files[rows[ps[k]].fullPath])
  {
    if ps != [] {
      var n := |ps| - 1;
      var m := CopyEach(d, quarantine, rows, ps[..n]);
      var e := CopyEach(d, quarantine, rows, ps);
      CopyEachDelivers(d, quarantine, rows, ps[..n]);
      CopyEachGrows(d, quarantine, rows, ps[..n]);
      CopyOneGrows(m, quarantine, ps[n], rows[ps[n]]);
      LastDestinationFresh(d, quarantine, rows, ps);
      forall k | 0 <= k < |ps|
        ensures var dst := Destination(quarantine, ps[k], rows[ps[k]].name);
          && Exists(e, dst)
          && (!Exists(d, dst) ==> dst in e.files && e.files[dst] == d.files[rows[ps[k]].fullPath])
      {
        if k < n {
          assert ps[..n][k] == ps[k];
        }
      }
    }
  }

  /** When every destination already exists, the copy loop changes nothing. */
  lemma {:induction false} CopyEachSkipsPresent(d: DiskState<Path>, quarantine: Path, rows: seq<Row>, ps: seq<nat>)
    requires forall k :: 0 <= k < |ps| ==> ps[k] < |rows|
    requires forall k :: 0 <= k < |ps| ==> Exists(d, Destination(quarantine, ps[k], rows[ps[k]].name))
    ensures CopyEach(d, quarantine, rows, ps) == d
  {
    if ps != [] {
      var n := |ps| - 1;
      CopyEachSkipsPresent(d, quarantine, rows, ps[..n]);
    }
  }

  /** Re-running `move_duplicate_files` on the disk a run that raised nothing
      left behind changes nothing: every copy is skipped. */
  lemma QuarantineIdempotent(d: DiskState<Path>, quarantine: Path, rows: seq<Row>)
    requires CanMakeDir(d, quarantine)
    requires CopiesCanSucceed(d, quarantine, rows, Redundant(rows))
    ensures Quarantined(d, quarantine, rows).Done?
    ensures var d2 := Quarantined(d, quarantine, rows).value;
      Quarantined(d2, quarantine, rows) == Done(d2)
  {
    var ps := Redundant(rows);
    var d1 := MakeDir(d, quarantine).value;
    assert CopiesCanSucceed(d1, quarantine, rows, ps);
    CopyEachDelivers(d1, quarantine, rows, ps);
    CopyEachGrows(d1, quarantine, rows, ps);
    var d2 := CopyEach(d1, quarantine, rows, ps);
    CopyEachSkipsPresent(d2, quarantine, rows, ps);
  }
}
