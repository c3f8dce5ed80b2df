# onepicture, modelled in Dafny

`onepicture` tidies a photo archive. It walks a picture directory and
fingerprints every file by the MD5 digest of its first and last mebibyte. It
copies every file whose fingerprint occurred earlier into a redundant
directory, named `<row index>_<file name>`. It then copies the first file of
every fingerprint into a timeline of `YYYY-MM` folders. A timeline path that
already exists is never overwritten, and the run keeps two counters, copied
and skipped, across batches of 1000 rows.

An older generation of scripts does the same job in separate steps:
- `1_FileDirectory.py` lists every file with a row id, its path, its length,
  its intended `YYYY-MM` path and a `CheckField` (name and size text).
- `2_FindDuplicates.py` keeps the shortest path of every `CheckField` group
  and writes the rest to a delete list, with a report of repeated names.
- `4_Copy_to_yyyymm.py` writes the path pairs to a `|`-separated file. It
  then cuts each line apart by character offsets, makes the month folder
  when it is missing, and copies the file.

The model has one module per file:

- `Decimal`: `str(int)`, zero padding, reading digits back.
- `Calendar`: `datetime` fields, `%Y-%m`, `str()`/`isoformat()` text.
- `PyText`: `str.find` and `s[a:b]` with Python's index rules.
- `Disk`: the filesystem. It is a map of files, a set of directories, and a
  set of locked paths: opening or copying to one raises `PermissionError`, and
  so does making one that is not yet a directory. `mkdir(exist_ok=True)` on
  an existing directory never raises, whatever its rights, and `exists()` is
  taken never to raise. The mutable class
  `Volume` offers `exists`, `mkdir` and `copy2` as methods, each proved
  against a pure function.
- `Fingerprint`, `Scanner`, `KeepFirst`, `Quarantine`, `Timeline` and
  `OnePicture` model `onepicture.py`.
- `FileDirectory`, `FindDuplicates` and `CopyToMonth` model the three
  legacy scripts.

The loops of the source are methods with loop invariants. Each is proved
equal to a specification function, and the promised properties are lemmas
about those functions. An exception that escapes a function ends the run.
The model returns it as an `Outcome` or an `Option<Failure>`.

MD5 is the parameter `md5`. The model fixes which bytes reach it and in which
order. `os.walk` is an input sequence. `str(st_size / 1024)`, Python's text of
a float, is the parameter `kbText`.

The code keeps no hash ledger: `.processed_files.hash` is only a file name
the scan skips (onepicture.py:90), and a timeline path that already exists
is counted as skipped (onepicture.py:164-168).

## Model

| member | source | states |
|---|---|---|
| Fingerprint.ReadAt | onepicture.py:45-50 | `f.read(k)` returns the next `k` bytes, or the bytes up to the end of the file when fewer remain |
| Fingerprint.SeekFromEnd | onepicture.py:49-55 | a backward seek by `offset` fails exactly when `size + offset` is negative, and otherwise lands at `size + offset`, inside the file |
| Fingerprint.DigestInput | onepicture.py:44-55 | the bytes fed to MD5: the whole file below 1 MiB, exactly 2 MiB from 1 MiB on |
| Fingerprint.FingerprintOf | onepicture.py:41-58 | defines the fingerprint of readable bytes as `md5` of the digest input |
| Fingerprint.CalculateFileHash | onepicture.py:31-58 | the result is `None` exactly for a missing file, and an escaping `PermissionError` exactly for a locked one; otherwise it is the digest of the file's window bytes |
| Fingerprint.DigestInputShape | onepicture.py:44-55 | a file under 1 MiB is hashed whole; otherwise exactly its first MiB followed by its last MiB are hashed |
| Fingerprint.WindowsOverlap | onepicture.py:44-55 | between 1 and 2 MiB the two windows overlap, and the middle bytes are fed to MD5 twice |
| Fingerprint.SameWindowsSameFingerprint | onepicture.py:41-58 | files that agree on their first and last MiB share a fingerprint, whatever their middles and lengths |
| Fingerprint.SmallFilesHashedWhole | onepicture.py:45-55 | below 1 MiB, two files have equal digest input exactly when they are equal |
| Fingerprint.EmptyFilesShareFingerprint | onepicture.py:41-58 | every empty file has the digest of the empty input |
| Fingerprint.DistinctFilesCanShareFingerprint | onepicture.py:41-58 | a 3 MiB file and a 2 MiB file of zero bytes differ but share a fingerprint |
| Scanner.ProcessFile | onepicture.py:73-86 | a file yields a row exactly when it exists, is readable and has a non-empty digest; the row describes that file under its own name and path |
| Scanner.ScanRows | onepicture.py:88-91 | defines the scan as `process_file` applied to each candidate in walk order, keeping the rows it yields |
| Scanner.Candidates | onepicture.py:90 | the scanned entries are exactly the walked entries whose names are not `Thumbs.db`, `.DS_Store` or `.processed_files.hash` |
| Scanner.MakeDataframeFromMetadata | onepicture.py:70-93 | the scan loop appends exactly the rows of the sequential scan specification, in walk order |
| Scanner.ScanRowsSound | onepicture.py:73-80 | every row names a readable scanned file under its own name and path, with its size, time and fingerprint; there are at most as many rows as files |
| Scanner.NoExcludedRow | onepicture.py:90 | no row ever names an excluded file |
| Scanner.UnreadableAddsNoRow | onepicture.py:73-86 | a file that is missing at scan time or refuses to be read adds no row |
| Scanner.ReadableFilesAllScanned | onepicture.py:73-91 | when every file is readable, each file gets exactly one row, in scan order |
| Scanner.ScannedFileHasRow | onepicture.py:73-91 | in any walk, readable or not, a scanned file that exists, is readable and has a non-empty digest has its row in the scan |
| KeepFirst.Positions | onepicture.py:123 | the selected positions are exactly those whose `duplicated(keep='first')` flag has the requested value, in increasing order |
| KeepFirst.DuplicatedPositions | onepicture.py:123 | the rows `duplicated(subset='FileHash', keep='first')` selects: exactly the positions repeating an earlier key, in increasing order |
| KeepFirst.KeptPositions | onepicture.py:186 | the rows `drop_duplicates` keeps: exactly the positions whose key does not occur earlier, in increasing order |
| KeepFirst.Partition | onepicture.py:186 | every row is either flagged as a duplicate or kept by `drop_duplicates`, never both, so the two parts add up to the table |
| KeepFirst.KeptKeysDistinct | onepicture.py:186 | no key is kept twice |
| KeepFirst.FirstOccurrence | onepicture.py:186 | every key has an earliest position, and that position is not flagged |
| KeepFirst.KeptCoversEveryKey | onepicture.py:186 | every key of the table is kept at its first occurrence |
| Quarantine.QuarantineName | onepicture.py:129 | defines the destination name `f"{idx}_{Filename}"` |
| Quarantine.CopyOne | onepicture.py:128-137 | defines one loop step: nothing for an existing destination, `copy2` otherwise, a caught `FileNotFoundError` or `PermissionError` changing nothing |
| Quarantine.Quarantined | onepicture.py:110-137 | `move_duplicate_files` raises exactly when the quarantine directory does not exist and is locked; otherwise it copies the flagged rows in order |
| Quarantine.MoveDuplicateFiles | onepicture.py:110-137 | the method leaves the disk as the quarantine specification does, and returns the exception that escapes from making the directory |
| Quarantine.CopyToQuarantine | onepicture.py:128-137 | one duplicate row changes the disk as one step of the quarantine specification does |
| Quarantine.DestinationsDistinct | onepicture.py:129 | two different indexes never share a quarantine destination |
| Quarantine.QuarantineNameInjective | onepicture.py:129 | `"{idx}_{name}"` determines both the index and the name, so no two redundant rows share a destination |
| Quarantine.CopyOneGrows | onepicture.py:133-134 | one step never overwrites or removes a file, and only its own destination can appear |
| Quarantine.CopyEachGrows | onepicture.py:128-137 | the loop never overwrites or removes a file, and new paths are only destinations of the visited rows |
| Quarantine.QuarantineNeverOverwrites | onepicture.py:120-137 | `move_duplicate_files` never overwrites or removes an existing file |
| Quarantine.CopyEachDelivers | onepicture.py:128-134 | when nothing raises, every destination exists afterwards, and one that was absent holds its source's bytes |
| Quarantine.CopyEachSkipsPresent | onepicture.py:133 | when every destination already exists, the loop changes nothing |
| Quarantine.QuarantineIdempotent | onepicture.py:120-137 | a second run on the result of a run that raised nothing changes nothing |
| Timeline.CreateTimelineDirectories | onepicture.py:139-174 | the method leaves the disk and both counters as the timeline specification does, and returns the `PermissionError` from the root `mkdir`, which escapes exactly when the root does not exist and is locked; on success the root exists |
| Timeline.ProcessInBatches | onepicture.py:95-108 | with `create_timeline_directories` as the process function, the batch loop ends as the batch specification does, carrying the counters from batch to batch; when an exception escapes, the disk and both counters are left as they were |
| Timeline.ProcessBatch | onepicture.py:104-108 | one batch moves the loop one step along the batch specification, or its escaping exception, raised exactly when the timeline root does not exist and is locked, is the outcome of the whole loop and leaves the disk and the counters unchanged |
| Timeline.PlaceRow | onepicture.py:155-172 | defines one row of the loop: skipped when its destination exists, otherwise `mkdir` of the month folder (accepted when it exists, even locked) and `copy2`, a caught exception leaving the row failed |
| Timeline.PlaceAll | onepicture.py:155-172 | defines the row loop as `PlaceRow` on each row in order, tallying the counters |
| Timeline.TimelineAfter | onepicture.py:139-174 | `create_timeline_directories` raises exactly when the timeline root does not exist and is locked; otherwise it runs the row loop |
| Timeline.BatchesFrom | onepicture.py:95-108 | defines the batch loop: slices of `size` rows from `start` on, each handed to the process function, stopping at the first escaping exception |
| Timeline.PlaceOne | onepicture.py:155-172 | one row of the loop changes the disk and the counters as the row specification does |
| Timeline.PlaceRowGrows | onepicture.py:164-167 | one row never overwrites or removes a file, and a copied row's destination holds its source's bytes |
| Timeline.PlaceAllAccounting | onepicture.py:155-172 | the loop never overwrites a file, the counters only grow, and together they grow by at most one per row |
| Timeline.DestinationsCollide | onepicture.py:156-159 | two rows share a timeline path exactly when they share file name, year and month |
| Timeline.PlaceRowSucceeds | onepicture.py:164-167 | a row whose source is readable, whose month folder exists or is writable and whose destination is writable moves a counter and leaves its destination in place |
| Timeline.PlaceAllComplete | onepicture.py:155-172 | when nothing raises, every row moves exactly one counter and its destination exists afterwards |
| Timeline.PlaceAllWhenPresent | onepicture.py:164-169 | over rows whose destinations all exist, nothing is copied or changed and every row counts as skipped |
| Timeline.TimelineIdempotent | onepicture.py:152-174 | after a run in which nothing raised, a second run copies nothing, changes nothing and skips every row |
| Timeline.FirstRunPlacesAll | onepicture.py:152-174 | a run in which nothing can raise leaves the root and every destination in place, with the rights unchanged |
| Timeline.RerunSkipsAll | onepicture.py:152-169 | a run over rows whose root and destinations all exist, locked or not, changes nothing and counts every row as skipped |
| Timeline.LaterCollisionSkipped | onepicture.py:164-169 | after a row is copied or found in place, a later row with the same destination is skipped, never overwriting it |
| Timeline.PlacedRowLeavesDestination | onepicture.py:164-169 | a row that did not fail has its destination in place right after it |
| Timeline.PlaceAllPrefixGrows | onepicture.py:155-172 | between two points of the loop the disk only grows |
| Timeline.CopiedFileHoldsSource | onepicture.py:166 | a copied row's timeline file holds the source's bytes and time at the end of the pass |
| Timeline.BatchesFromRaised | onepicture.py:104-108 | once an exception has escaped, no further batch runs |
| Timeline.BatchesFromRest | onepicture.py:104-108 | once the root exists, the remaining batches run like one pass over the remaining rows |
| Timeline.BatchOnRoot | onepicture.py:104-108 | once the root exists, a batch is one pass over its rows and the root stays |
| Timeline.FirstBatchThenRest | onepicture.py:104-108 | after the first batch has made the root, the later batches continue that pass to the end of the table |
| Timeline.BatchingTransparent | onepicture.py:104-108 | processing a non-empty table in batches of any positive size ends exactly as one call over the whole table |
| Timeline.NoRowsNoBatches | onepicture.py:104 | with no rows no batch runs, and not even the timeline root is made |
| OnePicture.RunOnePicture | onepicture.py:176-195 | the main program ends as the run specification does: scan, quarantine, then batches of the unique rows; when an exception escapes, the disk is the one `DiskOnEscape` gives |
| OnePicture.DiskOnEscape | onepicture.py:120-137 | the disk an escaping exception leaves: untouched when the quarantine `mkdir` raises (the folder is absent and locked), otherwise the quarantine's result, which only grows the starting disk |
| OnePicture.Run | onepicture.py:176-195 | defines the run: the scan, `move_duplicate_files` on all rows, then batches of `BatchSize` unique rows into the timeline from zeroed counters |
| OnePicture.UniqueRows | onepicture.py:186 | defines `drop_duplicates(subset='FileHash')` as the rows at the kept positions, in order |
| OnePicture.RowsSplit | onepicture.py:186-189 | each scanned row goes to exactly one of the quarantine and the timeline; timeline fingerprints are distinct, and every fingerprint is represented |
| OnePicture.RunNeverOverwrites | onepicture.py:183-195 | a run that raises nothing never overwrites or removes a file, and copied + skipped is at most the number of distinct fingerprints |
| OnePicture.HealthyRunCountsEveryFingerprint | onepicture.py:183-195 | when both output folders exist or are writable, every timeline destination is writable and the files readable, the run raises nothing and copied + skipped is the number of distinct fingerprints |
| Calendar.YearMonthShape | onepicture.py:157 | `%Y-%m` is seven characters, and year and month can be read back from it |
| Calendar.YearMonthInjective | onepicture.py:157 | two times share a month folder exactly when they share year and month |
| Calendar.IsoTextPrefix | 1_FileDirectory.py:31-34 | the first seven characters of `str(datetime)` are the `%Y-%m` key |
| Decimal.DecInjective | onepicture.py:129 | distinct row indexes have distinct decimal texts |
| Decimal.ZeroPadFacts | onepicture.py:157 | a zero-padded number has exactly the padding width and reads back as the number |
| Decimal.SixDigitsFrom | 4_Copy_to_yyyymm.py:33 | an index has six or more digits exactly from 100000 on |
| PyText.Slice | 4_Copy_to_yyyymm.py:32-33 | `s[a:b]` is the plain subsequence for in-range bounds, and for `b == -1` it is everything but the last character |
| PyText.Find | 4_Copy_to_yyyymm.py:31-34 | `find` returns -1 when there is no occurrence at or after the start, and otherwise the first occurrence |
| PyText.FindIsFirst | 4_Copy_to_yyyymm.py:31-33 | `find` returns the first occurrence at or after the start |
| PyText.ContainsIff | 4_Copy_to_yyyymm.py:30 | `line.find(sub) != -1` holds exactly when `sub` occurs in the line |
| Disk.MakeDir | onepicture.py:121 | `mkdir(exist_ok=True)` raises exactly on a locked path that is not yet a directory; otherwise the directory exists, files and rights are untouched, and an existing directory leaves the disk as it was |
| Disk.Copy | onepicture.py:134 | `copy2` succeeds exactly for a readable source and a writable destination, which then holds the source's data; a missing source raises `FileNotFoundError` |
| Disk.Volume.PathExists | onepicture.py:133 | `exists()` is true for a file or a directory |
| Disk.Volume.MakeDirs | onepicture.py:121 | the volume changes as `MakeDir` says, and is unchanged when it raises |
| Disk.Volume.Copy2 | onepicture.py:134 | the volume changes as `Copy` says, and is unchanged when it raises |
| FileDirectory.RowIdGenerator.constructor | 1_FileDirectory.py:20 | the generator starts at 1 and stops before 1000000 |
| FileDirectory.RowIdGenerator.Next | 1_FileDirectory.py:17-19 | `next()` yields the current value and advances, or raises `StopIteration` once the range is spent |
| FileDirectory.Join | 1_FileDirectory.py:30 | `os.path.join` starts with the root and ends with the name; a backslash is put between them exactly when the root is non-empty, does not end in a separator and is not a bare drive |
| FileDirectory.ListFiles | 1_FileDirectory.py:27-36 | the inner loop appends the rows of one directory's files, or reports that the generator ran out |
| FileDirectory.MakeRow | 1_FileDirectory.py:28-36 | defines one listing row: id, name, joined `Directory`, `Length` as its length, `SizeKB`, `ModifiedTime`, `CheckField` as name plus size text |
| FileDirectory.YyyymmDir | 1_FileDirectory.py:31 | defines `yyyymm_dir`: the timeline root, the first seven characters of `ModifiedTime` and the file name, joined by backslashes |
| FileDirectory.ListingOf | 1_FileDirectory.py:17-36 | the script writes a listing exactly when there are fewer than 1000000 files, and then one row per file |
| FileDirectory.ExportListing | 1_FileDirectory.py:17-36 | the script yields the listing specification: all rows when there are fewer than 1000000 files, `StopIteration` otherwise |
| FileDirectory.ListingRowsAt | 1_FileDirectory.py:25-36 | row `k` is the row of the k-th walked file, with id `k + 1` |
| FileDirectory.RowsFollowWalk | 1_FileDirectory.py:28-32 | each row's id, file name, joined directory and `Length` are those of its file |
| FileDirectory.RowIdsDistinct | 1_FileDirectory.py:17-28 | row ids are unique |
| FileDirectory.TimelinePathOfRow | 1_FileDirectory.py:31-34 | `yyyymm_dir` is the timeline root, `YYYY-MM` and the file name; the month part is `ModifiedTime[:7]` and reads back as year and month |
| FileDirectory.ListingKeepsEveryFile | 1_FileDirectory.py:25-36 | below the generator's bound every walked file is listed, `Thumbs.db` included |
| FileDirectory.CheckFieldAmbiguous | 1_FileDirectory.py:35 | two different files can share a `CheckField`, because name and size text are joined without a separator |
| FindDuplicates.GroupMin | 2_FindDuplicates.py:19 | the group minimum exists exactly when the group is non-empty; it is attained by a row of the group and is at most every length in it |
| FindDuplicates.MinTable | 2_FindDuplicates.py:19 | each `df_min` entry carries its group's least `Length` |
| FindDuplicates.MinTableKeysDistinct | 2_FindDuplicates.py:19 | `df_min` has one entry per check field |
| FindDuplicates.MinTableCovers | 2_FindDuplicates.py:19 | every check field of the listing has an entry |
| FindDuplicates.MatchingEntries | 2_FindDuplicates.py:25 | the matches of a row are exactly the entries agreeing on `CheckField` and on `Length` = `LengthMin` |
| FindDuplicates.MatchesAtMostOne | 2_FindDuplicates.py:25 | a row matches at most one `df_min` entry, so the join never duplicates a row |
| FindDuplicates.JoinRowOfListing | 2_FindDuplicates.py:25 | a listing row gets its `LengthMin` exactly when it is as short as its group's shortest, otherwise `NaN` |
| FindDuplicates.ShorterTwinIffAboveMin | 2_FindDuplicates.py:19-27 | a row has a shorter twin in its group exactly when it is longer than the group minimum |
| FindDuplicates.LeftJoinOfListing | 2_FindDuplicates.py:23-25 | the left join keeps the rows one for one and in order; `LengthMin` is null exactly for rows with a shorter twin |
| FindDuplicates.LeftJoin | 2_FindDuplicates.py:25 | defines `pd.merge(..., how='left')`: the left rows in order, each with its matching `LengthMin` or `NaN` |
| FindDuplicates.Unmatched | 2_FindDuplicates.py:26-27 | the filters keep at most the joined rows, and never a `Thumbs.db` row |
| FindDuplicates.DeleteList | 2_FindDuplicates.py:19-29 | `delete-list.csv` never holds a `Thumbs.db` row |
| FindDuplicates.UnmatchedOfJoin | 2_FindDuplicates.py:26-27 | the two filters keep exactly the rows, in order, that are not `Thumbs.db` and have a shorter twin |
| FindDuplicates.DeleteListMeaning | 2_FindDuplicates.py:19-27 | the delete list is exactly the listing's non-`Thumbs.db` rows with a strictly shorter twin, in order |
| FindDuplicates.DoomedMembers | 2_FindDuplicates.py:26-27 | a row is on the delete list exactly when it is not `Thumbs.db` and has a shorter twin |
| FindDuplicates.EveryGroupKeepsOne | 2_FindDuplicates.py:19-27 | no check-field group is wholly deleted: some row of each group stays off the delete list |
| FindDuplicates.TiedAtMinimumKept | 2_FindDuplicates.py:19-27 | every row at its group's least `Length` stays off the delete list, however many rows tie there |
| FindDuplicates.NameCount | 2_FindDuplicates.py:32 | a name's count is at most the length of the delete list |
| FindDuplicates.DuplicateReport | 2_FindDuplicates.py:32-33 | defines `df_count[df_count > 1]` as the names of the delete list with a count above one |
| FindDuplicates.NameCountPositive | 2_FindDuplicates.py:32 | a name has a positive count exactly when some row carries it |
| FindDuplicates.NameCountTwo | 2_FindDuplicates.py:32-33 | a name's count exceeds one exactly when two different rows carry it |
| FindDuplicates.ReportMeaning | 2_FindDuplicates.py:32-33 | the report lists exactly the names on two or more rows of the delete list, each with its number of rows |
| CopyToMonth.CopyDirLines | 4_Copy_to_yyyymm.py:17-18 | the file holds the header line first, then for each row `i` a line holding the index `i`, the row's `Directory` and its `yyyymm_dir`, joined by the separator |
| CopyToMonth.ParseLine | 4_Copy_to_yyyymm.py:31-35 | defines the three slices the loop cuts from a line: source, destination and month folder |
| CopyToMonth.FindCharAt | 4_Copy_to_yyyymm.py:31-33 | `find` of one character is its first position at or after the start |
| CopyToMonth.LinePipes | 4_Copy_to_yyyymm.py:31-33 | in a line made of the index, a separator, `A`, a separator and `B`, the separators sit right after the digits and right after `A`, with no other separator before the second |
| CopyToMonth.LayoutRecovered | 4_Copy_to_yyyymm.py:31-33 | for an index below 100000 and a source of at least four characters without a separator, the slices recover both the source and the destination |
| CopyToMonth.SixDigitIndexBreaksDestination | 4_Copy_to_yyyymm.py:31-33 | from index 100000 on the source is still recovered, but the destination becomes the source, a separator and the destination |
| CopyToMonth.DestinationIffShortIndex | 4_Copy_to_yyyymm.py:33 | the destination is cut correctly exactly when the index is below 100000 |
| CopyToMonth.TargetShape | 4_Copy_to_yyyymm.py:34 | in a timeline target, `Photo_Time_Line` first occurs at 3 and `Time_Line` at 9, and the first 26 characters are the month folder |
| CopyToMonth.MonthFolderRecovered | 4_Copy_to_yyyymm.py:34-35 | for a source free of `Time_Line`, the folder cut out of the line is the timeline root joined with `YYYY-MM` |
| CopyToMonth.CopyFileLine | 4_Copy_to_yyyymm.py:30-44 | the loop body does what the line specification says: skip, mkdir if missing, copy, count, or stop on an exception |
| CopyToMonth.CopyToMonthDirectories | 4_Copy_to_yyyymm.py:22-44 | the script leaves the disk, `n` and the escaping exception as the script specification does |
| CopyToMonth.CopyLine | 4_Copy_to_yyyymm.py:30-44 | defines one loop iteration: skip a `Thumbs.db` line, make a missing month folder, copy, count, or record the escaping exception |
| CopyToMonth.CopyScript | 4_Copy_to_yyyymm.py:22-44 | defines the script: the first line is skipped as the header, `CopyLine` runs over the rest from `n = 0` |
| CopyToMonth.CrashSticks | 4_Copy_to_yyyymm.py:29-44 | after an exception no further line has any effect |
| CopyToMonth.ActiveCount | 4_Copy_to_yyyymm.py:30 | defines the number of lines without `Thumbs.db`, which the loop acts on; it is at most the number of lines (`CountsActiveLines` and `ScriptCount` tie it to `n`) |
| CopyToMonth.CountsActiveLines | 4_Copy_to_yyyymm.py:30-44 | when nothing raised, `n` grows by exactly the number of lines without `Thumbs.db`, and never by more |
| CopyToMonth.ThumbsLineIgnored | 4_Copy_to_yyyymm.py:30 | a line mentioning `Thumbs.db` anywhere changes nothing |
| CopyToMonth.ExistingFolderNotRemade | 4_Copy_to_yyyymm.py:34-35 | a line whose month folder exists does not make a folder |
| CopyToMonth.HeaderIgnored | 4_Copy_to_yyyymm.py:24 | the first line is never parsed: whatever it holds, the script ends the same way |
| CopyToMonth.ScriptCount | 4_Copy_to_yyyymm.py:26-44 | a script that raised nothing ends with `n` equal to the number of data lines without `Thumbs.db`; otherwise `n` is at most that |
| CopyToMonth.CopyLinesExtends | 4_Copy_to_yyyymm.py:29-44 | the script may overwrite files but never removes a file or a folder, and access rights are unchanged |
| CopyToMonth.CopyLineHealthy | 4_Copy_to_yyyymm.py:30-44 | a line whose source is readable and whose paths are writable raises nothing, is counted exactly when it has no `Thumbs.db`, removes no file and leaves its destination in place |
| CopyToMonth.HealthyRunCopiesAll | 4_Copy_to_yyyymm.py:29-44 | when every source is readable and every target writable, nothing raises, `n` counts every line without `Thumbs.db`, and all their destinations exist |
| CopyToMonth.ListingLinesCutCorrectly | 4_Copy_to_yyyymm.py:17-35 | for a row below index 100000 whose source path has at least four characters and no `|` or `Time_Line`, row `i`'s line copies its `Directory` to its `yyyymm_dir`, inside its `YYYY-MM` folder |

## Left out

- MD5 is not modelled. `hashlib.md5` is the function parameter `md5`, and only the bytes fed to it are fixed.
- The thread pool in `make_dataframe_from_metadata` is modelled as a sequential loop in walk order. The real row order is whatever order the threads append in.
- `os.walk`, `os.stat` and `fromtimestamp` are inputs. The walk is a sequence of entries, and a file's time is a `datetime` value; time zones are not modelled.
- Calendar.Valid bounds the day of the month by 31, not by the length of the month, to keep proofs cheap. No property proved here depends on the day.
- `SizeKB` is a float in both generations. `onepicture` rows keep the byte size, and the listing's size text is the parameter `kbText`.
- The pandas round trips are not modelled: `isoformat`/`fromisoformat`, `to_csv`/`read_csv`, quoting of fields holding the separator or quotes, type inference and encodings. Each column is taken to read back as written.
- Fingerprint.CalculateFileHash: read errors other than a missing or locked file are not modelled. The only `OSError` modelled is the refused backward seek on a short file.
- `groupby` sorts its keys; `df_min` is kept here in order of first occurrence. Only its content is used, by the merge, so the delete list is the same.
- `mkdir(parents=True)` and `os.mkdir` record only the named folder. Missing parents and `FileExistsError` (a file in the folder's place) are not modelled.
- Disk.Copy: `copy2` into an existing directory, and a missing destination folder, are not modelled. The destination path simply receives the file.
- Other `OSError`s are not modelled. Only `FileNotFoundError` (a missing path) and `PermissionError` (a locked path) are.
- Disk.Exists: `Path.exists()` is taken never to raise. Up to Python 3.13 it re-raises `EACCES`, for example in a folder that cannot be searched. onepicture.py:133 and :164 sit inside the `try`, so such a row is caught and moves neither counter; in the model a locked path that exists counts as present, and a locked absent path goes on to `mkdir`/`copy2`, which raise and are caught in the same way.
- FileDirectory.Join does not model UNC paths or a root that is a drive with a path but no separator. It models the plain-root, empty, separator-ended and bare-drive cases.
- Timeline.ProcessInBatches always calls `create_timeline_directories`, the only process function the program hands it; its specification `BatchesFrom` takes any process function as a parameter, and the ghost argument `step` names what that call does.
- Timeline.ProcessInBatches requires a positive batch size. `range(0, n, 0)` raises `ValueError`, and the program always passes 1000.
- `3_RemoveDuplicates.py` is not part of this model: it deletes the files on a list it has just written.
- Printing, timing, `VERBOSE` and the hard-coded directory constants are not modelled, apart from the constants used as paths.
