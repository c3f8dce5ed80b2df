/** The legacy script `4_Copy_to_yyyymm.py`: the listing's `Directory` and
    `yyyymm_dir` columns are written to a `|`-separated file with the row
    index in front; each line of that file after the header is then cut apart
    by character offsets, its month folder is made when missing, and the file
    is copied with `copy2`. Any exception ends the script. */
module CopyToMonth {
  import opened Maybe
  import opened Decimal
  import opened Calendar
  import opened PyText
  import opened Disk
  import opened FileDirectory

  // ---------------------------------------------------------------------------
  // The intermediate file

  /** The header `to_csv` writes for an unnamed index and the two columns. */
  const HeaderLine: string := "|Directory|yyyymm_dir\n"

  /** One data line: index, `Directory`, `yyyymm_dir`, separated by `|`. */
  function CsvLine(idx: nat, directory: string, target: string): string {
    Dec(idx) + "|" + directory + "|" + target + "\n"
  }

  /** `df_dir.to_csv(copy_dir, sep='|', ...)` read back line by line. */
  function CopyDirLines(rows: seq<ListingRow>): (lines: seq<string>)
    ensures |lines| == |rows| + 1 && lines[0] == HeaderLine
    ensures forall i :: 0 <= i < |rows| ==> lines[i + 1] == CsvLine(i, rows[i].directory, YyyymmDir(rows[i]))
  {
    var data := seq(|rows|, i requires 0 <= i < |rows| => CsvLine(i, rows[i].directory, YyyymmDir(rows[i])));
    assert forall i :: 0 <= i < |rows| ==> ([HeaderLine] + data)[i + 1] == data[i];
    [HeaderLine] + data
  }

  // ---------------------------------------------------------------------------
  // Cutting a line apart

  /** The three texts the loop cuts out of a line: the copy source, the copy
      destination and the month folder. */
  datatype Cut = Cut(src: string, dst: string, dir: string)

  function ParseLine(line: string): Cut {
    var firstPipe := Find(line, "|", 0);
    var src := Slice(line, firstPipe + 1, Find(line, "|", firstPipe + 5));
    var dst := Slice(line, Find(line, "|", 6) + 1, -1);
    var dir := Slice(line, Find(line, "Photo_Time_Line", 0) - 3, Find(line, "Time_Line", 0) + 17);
    Cut(src, dst, dir)
  }

  /** `find` of a single character: the first position at or after `start`
      holding it. */
  lemma FindCharAt(s: string, c: char, start: nat, m: nat)
    requires start <= m < |s| && s[m] == c
    requires forall j :: start <= j < m ==> s[j] != c
    ensures Find(s, [c], start) == m
  {
    MatchChar(s, c, m);
    forall j | start <= j < m ensures !MatchAt(s, [c], j) {
      MatchChar(s, c, j);
    }
    FindIsFirst(s, [c], start, m);
  }

  /** Where the two separators of a data line are. */
  lemma LinePipes(idx: nat, A: string, B: string)
    requires '|' !in A
    ensures var line := CsvLine(idx, A, B);
      var D := Dec(idx);
      && line[|D|] == '|' && line[|D| + 1 + |A|] == '|'
      && line[|D| + 1..|D| + 1 + |A|] == A
      && line[|D| + 2 + |A|..|line| - 1] == B
      && (forall j :: 0 <= j < |D| ==> line[j] != '|')
      && (forall j :: |D| < j < |D| + 1 + |A| ==> line[j] != '|')
  {
    var D := Dec(idx);
    var line := CsvLine(idx, A, B);
    assert line == D + "|" + A + "|" + B + "\n";
    forall j | 0 <= j < |D| ensures line[j] != '|' {
      assert line[j] == D[j] && IsDigit(D[j]);
    }
    forall j | |D| < j < |D| + 1 + |A| ensures line[j] != '|' {
      assert line[j] == A[j - |D| - 1];
    }
  }

  /** For an index below 100000 (at most five digits) and a source path of at
      least four characters without `|`, the offsets recover both paths. */
  lemma LayoutRecovered(idx: nat, A: string, B: string)
    requires idx < 100000 && |A| >= 4 && '|' !in A
    ensures ParseLine(CsvLine(idx, A, B)).src == A
    ensures ParseLine(CsvLine(idx, A, B)).dst == B
  {
    var line := CsvLine(idx, A, B);
    var D := Dec(idx);
    SixDigitsFrom(idx);
    LinePipes(idx, A, B);
    FindCharAt(line, '|', 0, |D|);
    FindCharAt(line, '|', |D| + 5, |D| + 1 + |A|);
    FindCharAt(line, '|', 6, |D| + 1 + |A|);
  }

  /** From index 100000 on, the index has six digits, so `find('|', 6)` stops
      at the first separator and the destination becomes the source path, a
      `|` and the intended destination. */
  lemma SixDigitIndexBreaksDestination(idx: nat, A: string, B: string)
    requires idx >= 100000 && |A| >= 4 && '|' !in A
    ensures ParseLine(CsvLine(idx, A, B)).src == A
    ensures ParseLine(CsvLine(idx, A, B)).dst == A + "|" + B
  {
    var line := CsvLine(idx, A, B);
    var D := Dec(idx);
    SixDigitsFrom(idx);
    LinePipes(idx, A, B);
    FindCharAt(line, '|', 0, |D|);
    FindCharAt(line, '|', |D| + 5, |D| + 1 + |A|);
    FindCharAt(line, '|', 6, |D|);
    assert line[|D| + 1..|line| - 1] == A + "|" + B;
  }

  /** The destination is cut correctly exactly when the index has at most
      five digits. */
  lemma DestinationIffShortIndex(idx: nat, A: string, B: string)
    requires |A| >= 4 && '|' !in A
    ensures ParseLine(CsvLine(idx, A, B)).dst == B <==> idx < 100000
  {
    if idx < 100000 {
      LayoutRecovered(idx, A, B);
    } else {
      SixDigitIndexBreaksDestination(idx, A, B);
      assert |A + "|" + B| > |B|;
    }
  }

  lemma DigitsFree(D: string, sub: string)
    requires IsDigits(D) && |sub| >= 1 && !IsDigit(sub[0])
    ensures Free(D, sub)
  {
    forall j ensures !MatchAt(D, sub, j) {
      if 0 <= j && j + |sub| <= |D| {
        assert D[j..j + |sub|][0] == D[j] && IsDigit(D[j]);
      }
    }
  }

  /** Where `Photo_Time_Line` and `Time_Line` sit in the timeline root. */
  lemma TimeLineDirShape()
    ensures |TimeLineDir| == 18 && TimeLineDir[..9] == "E:\\Photo_"
    ensures TimeLineDir[3..18] == "Photo_Time_Line" && TimeLineDir[9..18] == "Time_Line"
  {
    var t := TimeLineDir;
    assert t == "E:\\" + "Photo_" + "Time_Line";
    assert t[..9] == "E:\\" + "Photo_";
    assert t[3..18] == "Photo_" + "Time_Line";
    assert t[9..18] == "Time_Line";
  }

  /** The shape of a `yyyymm_dir` text followed by the line end. */
  lemma TargetShape(ym: string, name: string)
    requires |ym| == 7
    ensures var R := TimeLineDir + "\\" + ym + "\\" + name + "\n";
      && |R| >= 27
      && R[..26] == TimeLineDir + "\\" + ym
      && MatchAt(R, "Photo_Time_Line", 3)
      && MatchAt(R, "Time_Line", 9)
      && (forall j :: 0 <= j < 3 ==> !MatchAt(R, "Photo_Time_Line", j))
      && (forall j :: 0 <= j < 9 ==> !MatchAt(R, "Time_Line", j))
  {
    var R := TimeLineDir + "\\" + ym + "\\" + name + "\n";
    TimeLineDirShape();
    assert R[..18] == TimeLineDir;
    assert R[3..18] == TimeLineDir[3..18];
    assert R[9..18] == TimeLineDir[9..18];
    assert R[..9] == TimeLineDir[..9];
    forall j | 0 <= j < 3 ensures !MatchAt(R, "Photo_Time_Line", j) {
      assert R[j..j + 15][0] == R[j] == R[..9][j] != 'P';
    }
    forall j | 0 <= j < 9 ensures !MatchAt(R, "Time_Line", j) {
      assert R[j..j + 9][0] == R[j] == R[..9][j] != 'T';
    }
  }

  /** No occurrence of `sub` starts before the target part of a data line. */
  lemma NothingBeforeTarget(P: string, D: string, A: string, R: string, sub: string)
    requires P == D + "|" + A + "|" && IsDigits(D)
    requires Free(A, sub) && '|' !in sub && |sub| >= 1 && !IsDigit(sub[0])
    ensures forall j :: 0 <= j < |P| ==> !MatchAt(P + R, sub, j)
  {
    var X := D + "|" + A;
    DigitsFree(D, sub);
    FreeJoin(D, '|', A, sub);
    assert X + ['|'] + R == (D + "|" + A + "|") + R;
    forall j | 0 <= j < |X| + 1 ensures !MatchAt(X + ['|'] + R, sub, j) {
      NoMatchBeforeSeparator(X, '|', R, sub, j);
    }
  }

  /** Where `Photo_Time_Line` first occurs at `k + 3` and `Time_Line` at
      `k + 9`, the month folder cut is the 26 characters from `k`. */
  lemma MonthFolderSlice(line: string, k: nat)
    requires k + 26 <= |line|
    requires Find(line, "Photo_Time_Line", 0) == k + 3 && Find(line, "Time_Line", 0) == k + 9
    ensures ParseLine(line).dir == line[k..k + 26]
  {
  }

  /** In a data line, `find` of a text the source path is free of lands in
      the target part, at its first occurrence there. */
  lemma FindInTarget(P: string, D: string, A: string, R: string, sub: string, m: nat)
    requires P == D + "|" + A + "|" && IsDigits(D)
    requires Free(A, sub) && '|' !in sub && |sub| >= 1 && !IsDigit(sub[0])
    requires MatchAt(R, sub, m) && forall j :: 0 <= j < m ==> !MatchAt(R, sub, j)
    ensures Find(P + R, sub, 0) == |P| + m
  {
    NothingBeforeTarget(P, D, A, R, sub);
    FindAfterPrefix(P, R, sub, m);
  }

  /** `Photo_Time_Line` contains `Time_Line`, so a text free of the one is
      free of the other. */
  lemma TimeLineFree(A: string)
    requires Free(A, "Time_Line")
    ensures Free(A, "Photo_Time_Line")
  {
    assert "Photo_Time_Line"[6..15] == "Time_Line";
    FreeOfContaining(A, "Time_Line", "Photo_Time_Line", 6);
  }

  /** For a source path free of `Time_Line`, the month folder cut out of a
      line whose target lies under the timeline root is exactly that root
      joined with the `YYYY-MM` folder. */
  lemma MonthFolderRecovered(idx: nat, A: string, ym: string, name: string)
    requires |ym| == 7
    requires Free(A, "Time_Line")
    ensures ParseLine(CsvLine(idx, A, TimeLineDir + "\\" + ym + "\\" + name)).dir == TimeLineDir + "\\" + ym
  {
    var B := TimeLineDir + "\\" + ym + "\\" + name;
    var P := Dec(idx) + "|" + A + "|";
    var R := B + "\n";
    assert CsvLine(idx, A, B) == P + R;
    TimeLineFree(A);
    TargetShape(ym, name);
    CutOfTarget(P, Dec(idx), A, R);
  }

  /** The month folder cut from a data line whose target has the timeline
      shape is the first 26 characters of that target. */
  lemma CutOfTarget(P: string, D: string, A: string, R: string)
    requires P == D + "|" + A + "|" && IsDigits(D)
    requires Free(A, "Time_Line") && Free(A, "Photo_Time_Line")
    requires |R| >= 27 && MatchAt(R, "Photo_Time_Line", 3) && MatchAt(R, "Time_Line", 9)
    requires forall j :: 0 <= j < 3 ==> !MatchAt(R, "Photo_Time_Line", j)
    requires forall j :: 0 <= j < 9 ==> !MatchAt(R, "Time_Line", j)
    ensures ParseLine(P + R).dir == R[..26]
  {
    FindInTarget(P, D, A, R, "Photo_Time_Line", 3);
    FindInTarget(P, D, A, R, "Time_Line", 9);
    MonthFolderSlice(P + R, |P|);
    assert (P + R)[|P|..|P| + 26] == R[..26];
  }

  // ---------------------------------------------------------------------------
  // The copy loop

  /** The disk, the counter `n`, and the exception that ended the script, if any. */
  datatype CopyRun = CopyRun(disk: DiskState<string>, n: nat, crash: Option<Failure>)

  /** A line is skipped when `Thumbs.db` occurs anywhere in it. */
  predicate Active(line: string) {
    Find(line, "Thumbs.db", 0) == -1
  }

  /** One iteration: make the month folder if it does not exist, copy
      (overwriting), count. */
  function CopyLine(s: CopyRun, line: string): CopyRun {
    if s.crash.Some? || !Active(line) then s
    else
      var cut := ParseLine(line);
      var made := if Exists(s.disk, cut.dir) then Done(s.disk) else MakeDir(s.disk, cut.dir);
      match made
      case Raised(e) => CopyRun(s.disk, s.n, Some(e))
      case Done(d1) =>
        match Copy(d1, cut.src, cut.dst)
        case Raised(e) => CopyRun(d1, s.n, Some(e))
        case Done(d2) => CopyRun(d2, s.n + 1, None)
  }

  function CopyLines(s: CopyRun, lines: seq<string>): CopyRun {
    if lines == [] then s
    else
      var n := |lines| - 1;
      CopyLine(CopyLines(s, lines[..n]), lines[n])
  }

  /** The script over the lines of the intermediate file: the first line is
      read as the header and skipped. */
  function CopyScript(d: DiskState<string>, lines: seq<string>): CopyRun {
    var start := CopyRun(d, 0, None);
    if lines == [] then start else CopyLines(start, lines[1..])
  }

  lemma {:induction false} CrashSticks(s: CopyRun, lines: seq<string>)
    requires s.crash.Some?
    ensures CopyLines(s, lines) == s
  {
    if lines != [] {
      CrashSticks(s, lines[..|lines| - 1]);
    }
  }

  lemma {:induction false} CopyLinesConcat(s: CopyRun, a: seq<string>, b: seq<string>)
    ensures CopyLines(s, a + b) == CopyLines(CopyLines(s, a), b)
    decreases |b|
  {
    if b == [] {
      assert a + b == a;
    } else {
      var n := |b| - 1;
      var ab := a + b;
      assert ab[..|ab| - 1] == a + b[..n] && ab[|ab| - 1] == b[n];
      CopyLinesConcat(s, a, b[..n]);
      assert CopyLines(s, ab) == CopyLine(CopyLines(s, a + b[..n]), b[n]);
    }
  }

  /** One step of the loop on `CopyLines(s, lines[..i])`. */
  lemma CopyLinesStep(s: CopyRun, lines: seq<string>, i: nat)
    requires i < |lines|
    ensures CopyLines(s, lines[..i + 1]) == CopyLine(CopyLines(s, lines[..i]), lines[i])
  {
    assert lines[..i + 1][..i] == lines[..i];
  }

  /** Once a line has raised, the remaining lines change nothing. */
  lemma CrashEndsScript(s: CopyRun, lines: seq<string>, i: nat)
    requires i <= |lines| && CopyLines(s, lines[..i]).crash.Some?
    ensures CopyLines(s, lines) == CopyLines(s, lines[..i])
  {
    assert lines == lines[..i] + lines[i..];
    CopyLinesConcat(s, lines[..i], lines[i..]);
    CrashSticks(CopyLines(s, lines[..i]), lines[i..]);
  }

  /** The body of the loop for one line that is not skipped. */
  method CopyFileLine(vol: Volume<string>, line: string, n: nat) returns (count: nat, err: Option<Failure>)
    modifies vol
    ensures var r := CopyLine(CopyRun(old(vol.State()), n, None), line);
      vol.State() == r.disk && count == r.n && err == r.crash
  {
    count, err := n, None;
    if Find(line, "Thumbs.db", 0) != -1 {
      return;
    }
    var cut := ParseLine(line);
    var present := vol.PathExists(cut.dir);
    if !present {
      err := vol.MakeDirs(cut.dir);
      if err.Some? {
        return;
      }
    }
    err := vol.Copy2(cut.src, cut.dst);
    if err.None? {
      count := n + 1;
    }
  }

  method CopyToMonthDirectories(vol: Volume<string>, lines: seq<string>) returns (n: nat, err: Option<Failure>)
    modifies vol
    ensures var r := CopyScript(old(vol.State()), lines);
      vol.State() == r.disk && n == r.n && err == r.crash
  {
    n, err := 0, None;
    if |lines| == 0 {
      return;
    }
    var body := lines[1..];
    ghost var start := CopyRun(vol.State(), 0, None);
    var i := 0;
    while i < |body|
      invariant 0 <= i <= |body|
      invariant CopyLines(start, body[..i]) == CopyRun(vol.State(), n, None) && err == None
    {
      CopyLinesStep(start, body, i);
      n, err := CopyFileLine(vol, body[i], n);
      if err.Some? {
        CrashEndsScript(start, body, i + 1);
        return;
      }
      i := i + 1;
    }
    assert body[..i] == body;
  }

  // ---------------------------------------------------------------------------
  // Properties of the copy loop

  /** The lines the loop acts on. */
  function ActiveCount(lines: seq<string>): (c: nat)
    ensures c <= |lines|
  {
    if lines == [] then 0
    else
      var n := |lines| - 1;
      ActiveCount(lines[..n]) + (if Active(lines[n]) then 1 else 0)
  }

  /** When the script ends without an exception, `n` counts exactly the data
      lines that do not mention `Thumbs.db`. */
  lemma {:induction false} CountsActiveLines(s: CopyRun, lines: seq<string>)
    requires s.crash.None?
    ensures CopyLines(s, lines).crash.None? ==> CopyLines(s, lines).n == s.n + ActiveCount(lines)
    ensures CopyLines(s, lines).n <= s.n + ActiveCount(lines)
  {
    if lines != [] {
      var n := |lines| - 1;
      CountsActiveLines(s, lines[..n]);
      CopyLineCount(CopyLines(s, lines[..n]), lines[n]);
    }
  }

  /** One line leaves a crashed run alone, and otherwise moves `n` by one
      exactly when it is acted on and raises nothing. */
  lemma CopyLineCount(s: CopyRun, line: string)
    ensures s.crash.Some? ==> CopyLine(s, line) == s
    ensures var r := CopyLine(s, line);
      && (r.crash.None? ==> s.crash.None? && r.n == s.n + (if Active(line) then 1 else 0))
      && r.n <= s.n + (if Active(line) then 1 else 0)
  {
  }

  /** A line mentioning `Thumbs.db` anywhere, in either path, changes nothing. */
  lemma ThumbsLineIgnored(s: CopyRun, line: string)
    requires Contains(line, "Thumbs.db")
    ensures CopyLine(s, line) == s
  {
  }

  /** The folder is made only when it is missing: a line whose month folder
      exists leaves the folders as they are. */
  lemma ExistingFolderNotRemade(s: CopyRun, line: string)
    requires Exists(s.disk, ParseLine(line).dir)
    ensures CopyLine(s, line).disk.dirs == s.disk.dirs
  {
  }

  /** The first line is consumed as the header and never parsed: whatever it
      holds, the script ends the same way. */
  lemma HeaderIgnored(d: DiskState<string>, h1: string, h2: string, body: seq<string>)
    ensures CopyScript(d, [h1] + body) == CopyScript(d, [h2] + body)
  {
    assert ([h1] + body)[1..] == body == ([h2] + body)[1..];
  }

  /** At the end of a script that raised nothing, `n` is the number of data
      lines without `Thumbs.db`; otherwise it is at most that number. */
  lemma ScriptCount(d: DiskState<string>, lines: seq<string>)
    requires lines != []
    ensures CopyScript(d, lines).crash.None? ==> CopyScript(d, lines).n == ActiveCount(lines[1..])
    ensures CopyScript(d, lines).n <= ActiveCount(lines[1..])
  {
    CountsActiveLines(CopyRun(d, 0, None), lines[1..]);
  }

  /** The script adds files and folders and may overwrite files, but never
      removes one. */
  ghost predicate Extends(d1: DiskState<string>, d2: DiskState<string>) {
    d1.files.Keys <= d2.files.Keys && d1.dirs <= d2.dirs && d1.locked == d2.locked
  }

  lemma {:induction false} CopyLinesExtends(s: CopyRun, lines: seq<string>)
    ensures Extends(s.disk, CopyLines(s, lines).disk)
  {
    if lines != [] {
      var n := |lines| - 1;
      CopyLinesExtends(s, lines[..n]);
      CopyLineExtends(CopyLines(s, lines[..n]), lines[n]);
    }
  }

  /** One line never removes a file or a folder. */
  lemma CopyLineExtends(s: CopyRun, line: string)
    ensures Extends(s.disk, CopyLine(s, line).disk)
  {
    if s.crash.None? && Active(line) {
      var cut := ParseLine(line);
      MakeThenCopyExtends(s.disk, cut.dir, cut.src, cut.dst);
    }
  }

  /** Making a folder if it is missing and then copying never removes a file
      or a folder, whichever step raises. */
  lemma MakeThenCopyExtends(d: DiskState<string>, dir: string, src: string, dst: string)
    ensures var made := if Exists(d, dir) then Done(d) else MakeDir(d, dir);
      && (made.Done? ==> Extends(d, made.value))
      && (made.Done? && Copy(made.value, src, dst).Done? ==> Extends(d, Copy(made.value, src, dst).value))
  {
  }

  /** Every line the loop acts on can be carried out on disk `d`. */
  ghost predicate CutsCanSucceed(d: DiskState<string>, lines: seq<string>) {
    forall line :: line in lines && Active(line) ==>
      var cut := ParseLine(line);
      && cut.src in d.files && cut.src !in d.locked
      && cut.dst !in d.locked && cut.dir !in d.locked
  }

  /** When every source can be read and every target written, the script
      runs to the end, counts every data line without `Thumbs.db`, and each
      of their destinations exists afterwards. */
  lemma {:induction false} HealthyRunCopiesAll(s: CopyRun, lines: seq<string>)
    requires s.crash.None? && CutsCanSucceed(s.disk, lines)
    ensures var r := CopyLines(s, lines);
      && r.crash.None? && r.n == s.n + ActiveCount(lines)
      && forall line :: line in lines && Active(line) ==> ParseLine(line).dst in r.disk.files
  {
    if lines != [] {
      var n := |lines| - 1;
      assert CutsCanSucceed(s.disk, lines[..n]) by {
        forall line | line in lines[..n] ensures line in lines {}
      }
      HealthyRunCopiesAll(s, lines[..n]);
      CopyLinesExtends(s, lines[..n]);
      var m := CopyLines(s, lines[..n]);
      assert lines[n] in lines;
      CopyLineHealthy(m, lines[n]);
      var r := CopyLines(s, lines);
      forall line | line in lines && Active(line) ensures ParseLine(line).dst in r.disk.files {
        if line != lines[n] {
          assert line in lines[..n];
        }
      }
    }
  }

  /** A line whose source is readable and whose paths are writable is carried
      out: it is counted, its destination exists, and nothing is removed. */
  lemma CopyLineHealthy(s: CopyRun, line: string)
    requires s.crash.None?
    requires var cut := ParseLine(line);
      Active(line) ==> (cut.src in s.disk.files && cut.src !in s.disk.locked
                        && cut.dst !in s.disk.locked && cut.dir !in s.disk.locked)
    ensures var r := CopyLine(s, line);
      && r.crash.None? && r.n == s.n + (if Active(line) then 1 else 0)
      && s.disk.files.Keys <= r.disk.files.Keys
      && (Active(line) ==> ParseLine(line).dst in r.disk.files)
  {
  }

  /** The whole second half of the script on the file the first half writes:
      for a row below index 100000, with source paths of at least
      four characters free of `|` and of `Time_Line`, the line of row `i`
      copies that row's `Directory` to its `yyyymm_dir`, into the row's month
      folder under the timeline root. */
  lemma ListingLinesCutCorrectly(rows: seq<ListingRow>, i: nat)
    requires i < |rows| && i < 100000
    requires |rows[i].directory| >= 4 && '|' !in rows[i].directory
    requires Free(rows[i].directory, "Time_Line")
    ensures var cut := ParseLine(CopyDirLines(rows)[i + 1]);
      && cut.src == rows[i].directory
      && cut.dst == YyyymmDir(rows[i])
      && cut.dir == TimeLineDir + "\\" + YearMonth(rows[i].modified)
  {
    var r := rows[i];
    var ym := ModifiedTime(r)[..7];
    IsoTextPrefix(r.modified, ' ');
    LayoutRecovered(i, r.directory, YyyymmDir(r));
    MonthFolderRecovered(i, r.directory, ym, r.filename);
  }
}
