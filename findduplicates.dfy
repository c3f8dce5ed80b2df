/** The legacy script `2_FindDuplicates.py`: within each `CheckField` group of
    the listing, the rows with the shortest `Directory` are kept; every other
    row (other than a `Thumbs.db` row) goes on the delete list, which is then
    counted per file name. */
module FindDuplicates {
  import opened Maybe
  import opened KeepFirst
  import opened FileDirectory

  /** One row of `df_min`: a check field and the least `Length` in its group. */
  datatype MinEntry = MinEntry(checkField: string, lengthMin: nat)

  /** One row of the left join: a listing row and its `LengthMin`, or `NaN`. */
  datatype Joined = Joined(row: ListingRow, lengthMin: Option<nat>)

  function CheckFields(rows: seq<ListingRow>): (cs: seq<string>)
    ensures |cs| == |rows| && forall i :: 0 <= i < |rows| ==> cs[i] == rows[i].checkField
  {
    seq(|rows|, i requires 0 <= i < |rows| => rows[i].checkField)
  }

  /** `df.groupby(['CheckField'])['Length'].min()` at one key: the least
      `Length` among the rows with that check field, or none without such rows. */
  function GroupMin(rows: seq<ListingRow>, cf: string): (m: Option<nat>)
    ensures m.None? <==> forall i :: 0 <= i < |rows| ==> rows[i].checkField != cf
    ensures m.Some? ==> exists i :: 0 <= i < |rows| && rows[i].checkField == cf && rows[i].length == m.value
    ensures m.Some? ==> forall i :: 0 <= i < |rows| && rows[i].checkField == cf ==> m.value <= rows[i].length
  {
    if rows == [] then None
    else
      var n := |rows| - 1;
      var front := GroupMin(rows[..n], cf);
      assert forall i :: 0 <= i < n ==> rows[..n][i] == rows[i];
      if rows[n].checkField != cf then front
      else match front
        case None => Some(rows[n].length)
        case Some(m) => Some(if rows[n].length < m then rows[n].length else m)
  }

  /** `df_min`: one entry per distinct check field (in order of first
      occurrence) with its group's least length. */
  function MinTable(rows: seq<ListingRow>): (t: seq<MinEntry>)
    ensures forall k :: 0 <= k < |t| ==> GroupMin(rows, t[k].checkField) == Some(t[k].lengthMin)
  {
    var keys := GroupKeys(rows);
    seq(|keys|, k requires 0 <= k < |keys| => MinEntry(keys[k], GroupMin(rows, keys[k]).value))
  }

  /** The distinct check fields, in order of first occurrence. */
  function GroupKeys(rows: seq<ListingRow>): (keys: seq<string>)
    ensures forall k :: 0 <= k < |keys| ==> GroupMin(rows, keys[k]).Some?
  {
    var cs := CheckFields(rows);
    var ps := KeptPositions(cs);
    assert forall k :: 0 <= k < |ps| ==> rows[ps[k]].checkField == cs[ps[k]];
    Select(cs, ps)
  }

  /** The `df_min` entries that match a row on `CheckField` and `Length` = `LengthMin`. */
  function MatchingEntries(table: seq<MinEntry>, r: ListingRow): (ms: seq<MinEntry>)
    ensures forall e :: e in ms <==> e in table && e.checkField == r.checkField && e.lengthMin == r.length
    ensures |ms| <= |table|
  {
    if table == [] then []
    else
      var n := |table| - 1;
      var e := table[n];
      MatchingEntries(table[..n], r) + (if e.checkField == r.checkField && e.lengthMin == r.length then [e] else [])
  }

  /** The output rows of a left merge for one left row: one per match, or a
      single row with `NaN` when nothing matches. */
  function JoinRow(table: seq<MinEntry>, r: ListingRow): seq<Joined> {
    var ms := MatchingEntries(table, r);
    if ms == [] then [Joined(r, None)]
    else seq(|ms|, k requires 0 <= k < |ms| => Joined(r, Some(ms[k].lengthMin)))
  }

  /** `pd.merge(df, df_min, how='left', ...)`: the left rows in order, each
      expanded by `JoinRow`. */
  function LeftJoin(rows: seq<ListingRow>, table: seq<MinEntry>): seq<Joined> {
    if rows == [] then []
    else
      var n := |rows| - 1;
      LeftJoin(rows[..n], table) + JoinRow(table, rows[n])
  }

  /** The two filters: not a `Thumbs.db` row, and no `LengthMin` match. */
  function Unmatched(js: seq<Joined>): (u: seq<ListingRow>)
    ensures |u| <= |js|
    ensures forall r :: r in u ==> r.filename != "Thumbs.db"
  {
    if js == [] then []
    else
      var n := |js| - 1;
      Unmatched(js[..n]) + (if js[n].row.filename != "Thumbs.db" && js[n].lengthMin.None? then [js[n].row] else [])
  }

  /** `delete-list.csv`. */
  function DeleteList(rows: seq<ListingRow>): (del: seq<ListingRow>)
    ensures forall r :: r in del ==> r.filename != "Thumbs.db"
  {
    Unmatched(LeftJoin(rows, MinTable(rows)))
  }

  // ---------------------------------------------------------------------------
  // What the delete list means

  /** Some row of the same check-field group lies on a shorter path. */
  ghost predicate HasShorterTwin(rows: seq<ListingRow>, r: ListingRow) {
    exists i :: 0 <= i < |rows| && rows[i].checkField == r.checkField && rows[i].length < r.length
  }

  /** The rows of `rs`, in order, that are not `Thumbs.db` and have a shorter
      twin in `rows`. */
  ghost function Doomed(rows: seq<ListingRow>, rs: seq<ListingRow>): seq<ListingRow> {
    if rs == [] then []
    else
      var n := |rs| - 1;
      Doomed(rows, rs[..n]) + (if rs[n].filename != "Thumbs.db" && HasShorterTwin(rows, rs[n]) then [rs[n]] else [])
  }

  /** A check field occurs at most once in `df_min`. */
  lemma MinTableKeysDistinct(rows: seq<ListingRow>, a: nat, b: nat)
    requires a < b < |MinTable(rows)|
    ensures MinTable(rows)[a].checkField != MinTable(rows)[b].checkField
  {
    KeptKeysDistinct(CheckFields(rows), a, b);
  }

  /** Every check field of the listing has its entry in `df_min`. */
  lemma MinTableCovers(rows: seq<ListingRow>, i: nat)
    requires i < |rows|
    ensures exists k :: 0 <= k < |MinTable(rows)| && MinTable(rows)[k].checkField == rows[i].checkField
  {
    var cs := CheckFields(rows);
    KeptCoversEveryKey(cs, i);
    var k :| 0 <= k < |KeptPositions(cs)| && cs[KeptPositions(cs)[k]] == cs[i];
    assert MinTable(rows)[k].checkField == rows[i].checkField;
  }

  /** The first two matches come from two different positions of the table. */
  lemma {:induction false} MatchingOrdered(table: seq<MinEntry>, r: ListingRow) returns (a: nat, b: nat)
    requires |MatchingEntries(table, r)| > 1
    ensures a < b < |table|
    ensures table[a] == MatchingEntries(table, r)[0] && table[b] == MatchingEntries(table, r)[1]
  {
    var n := |table| - 1;
    var front := MatchingEntries(table[..n], r);
    if |front| > 1 {
      a, b := MatchingOrdered(table[..n], r);
    } else {
      assert |front| == 1;
      assert front[0] in table[..n];
      a :| 0 <= a < n && table[..n][a] == front[0];
      b := n;
    }
  }

  /** Because `df_min`'s keys are distinct, a row matches at most one entry. */
  lemma MatchesAtMostOne(rows: seq<ListingRow>, r: ListingRow)
    ensures |MatchingEntries(MinTable(rows), r)| <= 1
  {
    var t := MinTable(rows);
    if |MatchingEntries(t, r)| > 1 {
      var a, b := MatchingOrdered(t, r);
      MinTableKeysDistinct(rows, a, b);
    }
  }

  lemma JoinRowAtMin(rows: seq<ListingRow>, r: ListingRow, i: nat)
    requires i < |rows| && rows[i] == r
    requires GroupMin(rows, r.checkField) == Some(r.length)
    ensures JoinRow(MinTable(rows), r) == [Joined(r, Some(r.length))]
  {
    var t := MinTable(rows);
    var k := EntryOf(rows, i);
    MatchesAtMostOne(rows, r);
    assert t[k] in MatchingEntries(t, r);
    JoinRowSingle(t, r);
  }

  /** The `df_min` entry of row `i`'s group. */
  lemma EntryOf(rows: seq<ListingRow>, i: nat) returns (k: nat)
    requires i < |rows|
    ensures k < |MinTable(rows)|
    ensures MinTable(rows)[k] == MinEntry(rows[i].checkField, GroupMin(rows, rows[i].checkField).value)
  {
    MinTableCovers(rows, i);
    k :| 0 <= k < |MinTable(rows)| && MinTable(rows)[k].checkField == rows[i].checkField;
  }

  lemma JoinRowSingle(table: seq<MinEntry>, r: ListingRow)
    requires |MatchingEntries(table, r)| <= 1
    requires exists e :: e in MatchingEntries(table, r)
    ensures JoinRow(table, r) == [Joined(r, Some(r.length))]
  {
    var ms := MatchingEntries(table, r);
    assert ms[0] in ms;
  }

  lemma JoinRowAboveMin(rows: seq<ListingRow>, r: ListingRow)
    requires GroupMin(rows, r.checkField).Some? && GroupMin(rows, r.checkField).value != r.length
    ensures JoinRow(MinTable(rows), r) == [Joined(r, None)]
  {
    var ms := MatchingEntries(MinTable(rows), r);
    if ms != [] {
      assert ms[0] in ms;
    }
  }

  /** A row of the listing matches `df_min` exactly when it is as short as its
      group's shortest, and then exactly once. */
  lemma JoinRowOfListing(rows: seq<ListingRow>, r: ListingRow)
    requires r in rows
    ensures var m := GroupMin(rows, r.checkField);
      m.Some? && JoinRow(MinTable(rows), r) == [Joined(r, if r.length == m.value then Some(m.value) else None)]
  {
    var i :| 0 <= i < |rows| && rows[i] == r;
    if r.length == GroupMin(rows, r.checkField).value {
      JoinRowAtMin(rows, r, i);
    } else {
      JoinRowAboveMin(rows, r);
    }
  }

  /** A row of the listing has a shorter twin exactly when it is longer than
      its group's least length. */
  lemma ShorterTwinIffAboveMin(rows: seq<ListingRow>, r: ListingRow)
    requires r in rows
    ensures GroupMin(rows, r.checkField).Some?
    ensures HasShorterTwin(rows, r) <==> r.length != GroupMin(rows, r.checkField).value
  {
    var m := GroupMin(rows, r.checkField);
    var i :| 0 <= i < |rows| && rows[i] == r;
    assert m.Some?;
    if r.length != m.value {
      var j :| 0 <= j < |rows| && rows[j].checkField == r.checkField && rows[j].length == m.value;
      assert rows[j].length < r.length;
    }
  }

  /** The left join keeps the listing's rows one for one, in order, and
      attaches `LengthMin` exactly to the rows as short as their group's shortest. */
  lemma {:induction false} LeftJoinOfListing(rows: seq<ListingRow>, rs: seq<ListingRow>)
    requires forall r :: r in rs ==> r in rows
    ensures var js := LeftJoin(rs, MinTable(rows));
      && |js| == |rs|
      && forall i :: 0 <= i < |rs| ==>
        js[i].row == rs[i] && (js[i].lengthMin.None? <==> HasShorterTwin(rows, rs[i]))
  {
    if rs != [] {
      var n := |rs| - 1;
      var t := MinTable(rows);
      assert forall r :: r in rs[..n] ==> r in rs;
      LeftJoinOfListing(rows, rs[..n]);
      assert rs[n] in rs;
      JoinRowOfListing(rows, rs[n]);
      ShorterTwinIffAboveMin(rows, rs[n]);
      JoinedSnoc(rows, rs, LeftJoin(rs[..n], t), JoinRow(t, rs[n]));
    }
  }

  /** Appending the joined last row keeps the row-by-row correspondence. */
  lemma JoinedSnoc(rows: seq<ListingRow>, rs: seq<ListingRow>, front: seq<Joined>, last: seq<Joined>)
    requires rs != [] && |front| == |rs| - 1
    requires forall i :: 0 <= i < |front| ==>
      front[i].row == rs[i] && (front[i].lengthMin.None? <==> HasShorterTwin(rows, rs[i]))
    requires |last| == 1 && last[0].row == rs[|rs| - 1]
    requires last[0].lengthMin.None? <==> HasShorterTwin(rows, rs[|rs| - 1])
    ensures var js := front + last;
      |js| == |rs| && forall i :: 0 <= i < |rs| ==>
        js[i].row == rs[i] && (js[i].lengthMin.None? <==> HasShorterTwin(rows, rs[i]))
  {
  }

  lemma {:induction false} UnmatchedOfJoin(rows: seq<ListingRow>, rs: seq<ListingRow>, js: seq<Joined>)
    requires |js| == |rs|
    requires forall i :: 0 <= i < |rs| ==>
      js[i].row == rs[i] && (js[i].lengthMin.None? <==> HasShorterTwin(rows, rs[i]))
    ensures Unmatched(js) == Doomed(rows, rs)
  {
    if rs != [] {
      var n := |rs| - 1;
      UnmatchedOfJoin(rows, rs[..n], js[..n]);
    }
  }

  /** The delete list is exactly the listing's rows, in order, that are not
      named `Thumbs.db` and whose check-field group holds a row on a strictly
      shorter path. */
  lemma DeleteListMeaning(rows: seq<ListingRow>)
    ensures DeleteList(rows) == Doomed(rows, rows)
  {
    LeftJoinOfListing(rows, rows);
    UnmatchedOfJoin(rows, rows, LeftJoin(rows, MinTable(rows)));
  }

  lemma {:induction false} DoomedMembers(rows: seq<ListingRow>, rs: seq<ListingRow>)
    ensures forall r :: r in Doomed(rows, rs) <==> r in rs && r.filename != "Thumbs.db" && HasShorterTwin(rows, r)
  {
    if rs != [] {
      var n := |rs| - 1;
      DoomedMembers(rows, rs[..n]);
      assert rs == rs[..n] + [rs[n]];
    }
  }

  /** No check-field group is emptied: each keeps the rows on its shortest
      path, and rows tied at that length are all kept. */
  lemma EveryGroupKeepsOne(rows: seq<ListingRow>, i: nat)
    requires i < |rows|
    ensures exists j :: 0 <= j < |rows| && rows[j].checkField == rows[i].checkField && rows[j] !in DeleteList(rows)
  {
    DeleteListMeaning(rows);
    DoomedMembers(rows, rows);
    var m := GroupMin(rows, rows[i].checkField).value;
    var j :| 0 <= j < |rows| && rows[j].checkField == rows[i].checkField && rows[j].length == m;
    assert !HasShorterTwin(rows, rows[j]);
  }

  /** Every row at its group's least `Length` survives, however many rows
      tie there: only rows strictly longer than the minimum are deleted. */
  lemma TiedAtMinimumKept(rows: seq<ListingRow>, j: nat)
    requires j < |rows| && rows[j].length == GroupMin(rows, rows[j].checkField).value
    ensures rows[j] !in DeleteList(rows)
  {
    DeleteListMeaning(rows);
    DoomedMembers(rows, rows);
    assert !HasShorterTwin(rows, rows[j]);
  }

  // ---------------------------------------------------------------------------
  // The duplicate-name report

  /** `groupby(['Filename'])['CheckField'].count()` at one name. */
  function NameCount(del: seq<ListingRow>, name: string): (c: nat)
    ensures c <= |del|
  {
    if del == [] then 0
    else
      var n := |del| - 1;
      NameCount(del[..n], name) + (if del[n].filename == name then 1 else 0)
  }

  /** `df_count[df_count > 1]`: the names on the delete list more than once. */
  function DuplicateReport(del: seq<ListingRow>): map<string, nat> {
    var names := set r | r in del :: r.filename;
    map name | name in names && NameCount(del, name) > 1 :: NameCount(del, name)
  }

  lemma {:induction false} NameCountPositive(del: seq<ListingRow>, name: string)
    ensures NameCount(del, name) > 0 <==> exists i :: 0 <= i < |del| && del[i].filename == name
  {
    if del != [] {
      var n := |del| - 1;
      NameCountPositive(del[..n], name);
      if exists i :: 0 <= i < n && del[..n][i].filename == name {
        var i :| 0 <= i < n && del[..n][i].filename == name;
        assert del[i].filename == name;
      }
      if exists i :: 0 <= i < |del| && del[i].filename == name {
        var i :| 0 <= i < |del| && del[i].filename == name;
        if i < n {
          assert del[..n][i].filename == name;
        }
      }
    }
  }

  lemma {:induction false} NameCountTwoWitness(del: seq<ListingRow>, name: string) returns (i: nat, j: nat)
    requires NameCount(del, name) > 1
    ensures i < j < |del| && del[i].filename == name && del[j].filename == name
  {
    var n := |del| - 1;
    var front := del[..n];
    if del[n].filename == name {
      NameCountPositive(front, name);
      i :| 0 <= i < n && front[i].filename == name;
      j := n;
    } else {
      i, j := NameCountTwoWitness(front, name);
    }
  }

  lemma {:induction false} NameCountFromWitness(del: seq<ListingRow>, name: string, i: nat, j: nat)
    requires i < j < |del| && del[i].filename == name && del[j].filename == name
    ensures NameCount(del, name) > 1
  {
    var n := |del| - 1;
    var front := del[..n];
    if j == n {
      assert front[i].filename == name;
      NameCountPositive(front, name);
    } else {
      assert front[i].filename == name && front[j].filename == name;
      NameCountFromWitness(front, name, i, j);
    }
  }

  lemma NameCountTwo(del: seq<ListingRow>, name: string)
    ensures NameCount(del, name) > 1 <==>
      exists i, j :: 0 <= i < j < |del| && del[i].filename == name && del[j].filename == name
  {
    if NameCount(del, name) > 1 {
      var i, j := NameCountTwoWitness(del, name);
    }
    if exists i, j :: 0 <= i < j < |del| && del[i].filename == name && del[j].filename == name {
      var i, j :| 0 <= i < j < |del| && del[i].filename == name && del[j].filename == name;
      NameCountFromWitness(del, name, i, j);
    }
  }

  /** A name is reported exactly when two different rows of the delete list
      carry it, and it is reported with its number of rows. */
  lemma ReportMeaning(del: seq<ListingRow>, name: string)
    ensures name in DuplicateReport(del) <==>
      exists i, j :: 0 <= i < j < |del| && del[i].filename == name && del[j].filename == name
    ensures name in DuplicateReport(del) ==> DuplicateReport(del)[name] == NameCount(del, name)
  {
    NameCountTwo(del, name);
    if NameCount(del, name) > 1 {
      var i, j :| 0 <= i < j < |del| && del[i].filename == name && del[j].filename == name;
      assert del[i] in del;
    }
  }
}
