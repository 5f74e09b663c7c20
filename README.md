# railway-opendata: dataset lifecycle, station index and station-file scripts

This project models the parts of railway-opendata that manage what the web dashboard serves.
It also proves properties of that model.

- The web backend (`webapp/backend/main.py`) covers:
  - the dataset directory `webapp/data` and its `_default` snapshot;
  - the `_archive/<stamp>` backups made on every replacement;
  - the upload endpoint that replaces the dataset from a ZIP, a folder or a stations file;
  - the revert, apply, delete and clear-archives endpoints;
  - the date and path helpers they rely on;
  - the station index behind region and station filtering;
  - the substring search and limit of the `/stations` endpoint.
- The station-file scripts under `scripts/` repair `stations.csv`:
  - `clean_stations.py` and `batch_clean_stations.py` rebuild rows whose long name holds unquoted commas;
  - `fix_remaining_coords.py` applies a fixed table of positions;
  - `geocode_stations.py` looks up stations with invalid coordinates by name;
  - `fix_zero_coordinates.py` looks them up by station code.

## How the model is built

Code that computes a value is modelled as datatypes, functions and lemmas. Code that works
step by step is modelled as methods with loops, proved against those functions.

- **The dataset directory.** The class `DatasetStore.DataDir` keeps the live entries, the
  `_default` snapshot and the archives as fields.
  - Each handler is a method whose postcondition ties the new state to a specification
    function on the value `DatasetStore.Store` (`Archive`, `Restore`, `Apply`, `Delete`, `ClearAll`).
  - Lemmas state what those functions promise: nothing is lost, two reverts undo each other,
    and `_default` is written once.
  - A folder is modelled by the files below it (`Paths.Tree`, a map from path to content).
- **The scripts.** `Disk.Files` is the file system as a map from path to text.
  - Each script is a method whose effect on that map equals a function of the old contents,
    the rows `csv.DictReader` read and the outside inputs.
  - Lemmas about the function say what the script writes, when it writes, and what stays as it was.
- **Outside inputs become parameters.** The Nominatim search, the ViaggiaTreno lookup
  (`Station.by_code`), the operator's answers to `input()`, the UTC time stamp of an archive,
  and `str(float)` (the `show` parameter) are all passed in.
- **Floating point.** `float()` is modelled on exact rationals (`Coordinates.ParseFloat`):
  the decimal forms, an exponent, `inf` and `nan`, with surrounding whitespace.
- **A dead branch.** `fix_zero_coordinates.py` never reaches its final "also update the webapp
  copy" step. That step runs only when the script worked on `data/stations.csv`, which happens
  only when `webapp/data/stations.csv` does not exist. `FixZeroCoordinates.SavedFiles` proves
  the copy never happens.

## Model

| member | source | states |
|---|---|---|
| Dates.ParseDate | webapp/backend/main.py:113-117 | a string read as a date names a valid calendar date (year at least 1, month 1-12, day within the month) |
| Dates.DateNameParses | webapp/backend/main.py:167-172 | the `YYYY-MM-DD` name of any valid date is accepted as a date folder name and reads back as that date |
| Dates.ParsedDateName | webapp/backend/main.py:167-172 | only canonical names are date folder names: an accepted name is exactly the zero-padded form of its date |
| Dates.NameOrderIsDateOrder | webapp/backend/main.py:528-551 | for two date folder names, string order is calendar order, so sorting folders by name sorts them by day |
| Dates.DateNameOrder | webapp/backend/main.py:943-952 | the string order of two date names is the calendar order of the dates |
| Dates.OrdinalOrder | webapp/backend/main.py:130-143 | day ordinals compare as the dates do, and are equal exactly for equal dates |
| Dates.StampOrder | webapp/backend/main.py:248 | archive stamps `%Y%m%d_%H%M%S` compare by name as their instants compare in time, and distinct instants give distinct stamps |
| Dates.DigitsOrder | webapp/backend/main.py:248 | zero-padded fields of one width compare as strings exactly as the numbers compare |
| Dates.ValidateRange | webapp/backend/main.py:120-127 | a range passes exactly when the start is not after the end and it spans at most the given number of days; an end before the start is its own error |
| Dates.ClampToMaxRange | webapp/backend/main.py:495-501 | the precompute range ends at the newest day; it starts at the oldest day unless the span exceeds 366 days, then 365 days before the end, and always passes the 366-day check |
| Dates.DefaultWindow | webapp/backend/main.py:1099-1106 | the describe window ends at the newest day and spans the requested days (30 when below 1), cut to the available range; no window exists exactly when `timedelta` or `date` would overflow; it passes the 366-day check exactly when its length is at most 367 |
| Paths.DropEmpty | webapp/backend/main.py:177 | the kept pieces are exactly the non-empty ones |
| Paths.LeadingSeparatorsDropOut | webapp/backend/main.py:176-177 | stripping leading slashes changes nothing once empty pieces are dropped |
| Paths.SafeRelpath | webapp/backend/main.py:175-180 | a path is refused exactly when a `..` segment appears; otherwise the result has no backslash and no leading or trailing slash, and splits into the non-empty segments of the input |
| Paths.SafeRelpathFacts | webapp/backend/main.py:175-180 | the cleaned segments contain no separator, and joining them with `/` splits back into them |
| Paths.SafeRelpathIdempotent | webapp/backend/main.py:175-180 | cleaning a cleaned path changes nothing |
| Paths.PathParts | webapp/backend/main.py:194 | the components of a relative path are its segments other than empty and `.` |
| Paths.WrittenPathSafe | webapp/backend/main.py:189-196 | a file written under a cleaned non-empty path lands at a path with only safe segments |
| Paths.ActionFor | webapp/backend/main.py:203-211 | a ZIP entry is refused exactly when it is absolute or has a `..` part outside `__MACOSX/` and `.DS_Store`; an entry that is written has a safe path and is no folder |
| Paths.AddKeepsTree | webapp/backend/main.py:212-215 | writing a file at a safe path that clashes with no file keeps the extracted tree well formed |
| Paths.ExtractZip | webapp/backend/main.py:200-215 | a failure is a 400 or a 500, as the first refused or faulting entry decides, and a refused entry anywhere means failure; a successful extraction is well formed at safe paths, and holds at each written path the data of the last entry that writes it |
| Paths.ExtractedPaths | webapp/backend/main.py:202-215 | a successful extraction holds a path exactly when some entry writes it |
| Paths.ExtractedData | webapp/backend/main.py:212-215 | each extracted file holds the data of the last entry writing its path, as reopening it with `"wb"` overwrites |
| Paths.ExtractInto | webapp/backend/main.py:202-215 | on success the tree is the one already written, overlaid with each path the entries write and the last data written there; a refused entry anywhere means failure |
| Paths.WriteUploadFiles | webapp/backend/main.py:183-197 | a count mismatch between given paths and files is exactly the mismatch error; on success every path was free of `..`, the tree is well formed, and its contents are the files in upload order with the last one written at a path winning |
| Paths.UploadedPaths | webapp/backend/main.py:187-197 | after a successful upload a path holds a file exactly when some uploaded file names it as a non-empty, non-folder relative path |
| Paths.UploadedData | webapp/backend/main.py:194-197 | the bytes at an uploaded path are those of the last uploaded file written there |
| Paths.WriteFrom | webapp/backend/main.py:187-197 | writing the files from position `i` on gives the files already written overlaid with the remaining files, the last one at each path winning |
| Paths.FirstDayMarker | webapp/backend/main.py:228-231 | the inner loop stops at the first position of a path that is a date folder holding `trains.csv`, and no earlier position is one |
| Paths.FindDatasetRoot | webapp/backend/main.py:218-242 | a 400 exactly when no directory holds a date folder with `trains.csv`; otherwise the result holds one and no candidate is shallower |
| StationIndex.StrippedNonEmpty | webapp/backend/main.py:158-159 | every kept item is non-empty with no surrounding whitespace |
| StationIndex.ParseCsvListClean | webapp/backend/main.py:155-159 | every item of a parsed list is stripped, non-empty and has no comma |
| StationIndex.ParseCsvListJoin | webapp/backend/main.py:155-159 | parsing the comma join of clean items gives the items back |
| StationIndex.FirstSet | webapp/backend/main.py:577-578 | `a or b or ""` picks the first non-empty value among the keys, and is empty exactly when all are missing or empty |
| StationIndex.ParseInt | webapp/backend/main.py:582-586 | a number is read exactly from an optional `+` or `-` followed by digits, with the signed value of the digits; any other text is the `ValueError` (no number) |
| StationIndex.ParseIntDigits | webapp/backend/main.py:584 | a zero-padded region number reads back as the number |
| StationIndex.RegionCodeOf | webapp/backend/main.py:579-586 | a blank region gives no region code; any other region is the integer read from its stripped text, or none when that text is not an integer |
| StationIndex.MetaOf | webapp/backend/main.py:577-594 | a station with a code always gets a non-empty display name, with the stripped short name and the row's region code and name |
| StationIndex.RegionKeyOf | webapp/backend/main.py:596-598 | only rows with a code are filed under a region |
| StationIndex.LoadStationsIndex | webapp/backend/main.py:554-603 | a missing file gives the empty index; otherwise the loop builds exactly the code map and region map of the rows |
| StationIndex.ByCodeLastRowWins | webapp/backend/main.py:573-594 | a code is indexed exactly when some row has it, and its entry comes from the last row with that code |
| StationIndex.ByRegionCollectsRows | webapp/backend/main.py:596-598 | a region is listed exactly when some row maps to it, and its codes are exactly the codes of those rows |
| StationIndex.RegionCodesAreIndexed | webapp/backend/main.py:589-598 | every code listed under a region is also in the code map |
| StationIndex.ResolveStationCodes | webapp/backend/main.py:606-619 | the result is exactly the indexed codes whose `code name short_name` text, lower-cased, contains the stripped lower-cased query; an empty query matches nothing |
| StationIndex.StationFoundByCode | webapp/backend/main.py:606-619 | a query equal to a station's code, in any case and with spaces around it, finds that station |
| StationIndex.RefinedQueryFindsFewer | webapp/backend/main.py:606-619 | a station found by a longer query is found by every part of it |
| StationIndex.ContainsTransitive | webapp/backend/main.py:617 | text inside text inside a haystack is inside the haystack |
| StationIndex.SearchThenLocate | webapp/backend/main.py:1544-1551 | searching and then keeping point features equals one filter by both tests |
| StationIndex.FilterAndLimitSelects | webapp/backend/main.py:1536-1554 | the result is a prefix of the matching features, in their original order, as long as the positive limit allows, and all of them when there is no positive limit |
| DatasetStore.FixedNamesAreNotDates | webapp/backend/main.py:44-51 | no reserved file or folder name is a date folder name |
| DatasetStore.ResolveRestore | webapp/backend/main.py:403-420 | `_current` is refused; `_default` is used only when it has content; a named archive must exist; with no archives only `_default` can be chosen |
| DatasetStore.ResolveApply | webapp/backend/main.py:451-460 | the target is accepted exactly when it is `_default` with content or an existing archive other than `_current` |
| DatasetStore.Delete | webapp/backend/main.py:850-872 | reserved stamps are refused, a missing archive is a not-found; otherwise exactly that archive goes and nothing else changes |
| DatasetStore.ClearAll | webapp/backend/main.py:875-898 | no archive and no `_archive` folder remain; `_default` is first ensured, and the live dataset is rebuilt from it only when `_archive` existed and `_default` has content |
| DatasetStore.ArchiveLosesNothing | webapp/backend/main.py:245-275 | every live entry either stays or moves to the new archive unchanged; what stays is not archivable; a stamp is returned exactly when something moved; other archives are untouched |
| DatasetStore.ArchiveTwiceMovesNothing | webapp/backend/main.py:245-275 | archiving right after archiving moves nothing and returns no stamp |
| DatasetStore.ArchiveFresh | webapp/backend/main.py:245-275 | with a new stamp, the archives gain exactly the archivable part of the live dataset, if it is not empty |
| DatasetStore.LoopThenOutputsIsArchive | webapp/backend/main.py:252-273 | moving the entries one by one and then `outputs` gives the archive specification |
| DatasetStore.StoreOkPreserved | webapp/backend/main.py:245-351 | no snapshot ever holds `_archive` or `_default`, and `_archive` exists whenever an archive does, across archiving, clearing and snapshotting |
| DatasetStore.RestoreKeepsData | webapp/backend/main.py:395-440 | a revert makes the chosen dataset live, keeps every older archive, backs the replaced dataset up under the new stamp when it had content, and keeps `_default` |
| DatasetStore.ReloadKeepsData | webapp/backend/main.py:422-440 | archive, clear and copy leave the source's content live and lose no archive |
| DatasetStore.ReloadStoreOk | webapp/backend/main.py:422-440 | a reload keeps the store's shape invariant |
| DatasetStore.RevertTwiceRestores | webapp/backend/main.py:814-821 | with a newer stamp each time, a second revert without a stamp brings back the dataset the first one replaced |
| DatasetStore.RevertPicksNewest | webapp/backend/main.py:410-420 | a revert without a stamp picks the archive taken last in time |
| DatasetStore.ApplyIsRevertWithoutBackup | webapp/backend/main.py:443-476 | applying a target makes the same dataset live as reverting to it, but archives nothing |
| DatasetStore.DefaultWriteOnce | webapp/backend/main.py:345-351 | once `_default` has content, no operation changes it |
| DatasetStore.EnsureDefaultIdempotent | webapp/backend/main.py:345-351 | ensuring the default snapshot twice is the same as once |
| DatasetStore.SortedFoldersByDay | webapp/backend/main.py:528-551 | date folders sorted by name are in strictly increasing day order |
| DatasetStore.ImportedReservedFree | webapp/backend/main.py:318-332 | copied dataset contents never include `_archive` or `_default` |
| DatasetStore.MetaWritten | webapp/backend/main.py:293-304 | a non-empty name is recorded stripped in `dataset.meta.json`; no name, or a folder in the way, leaves everything as it was; no other entry changes |
| DatasetStore.MetaName | webapp/backend/main.py:307-315 | the recorded name is the meta file's text when it is a non-empty file, and none otherwise |
| DatasetStore.DefaultArchiveEntry | webapp/backend/main.py:361-372 | an entry exactly when `_default` has content: stamp `_default`, path `_default`, flagged default, named by its meta or "Bundled dataset" |
| DatasetStore.ArchivedEntry | webapp/backend/main.py:800-809 | an archive's entry has its stamp, the path `_archive/<stamp>`, its recorded name or none, and neither flag |
| DatasetStore.LeadEntries | webapp/backend/main.py:361-392 | the list starts with the `_current` entry (path of the live directory, the given name) exactly when the live dataset has content, then the `_default` entry; it is empty exactly when neither has content |
| DatasetStore.DataDir.CurrentDatasetEntry | webapp/backend/main.py:375-392 | an entry exactly when the live dataset has content, flagged current, named by its meta, else by its oldest and newest date folders as `<oldest> → <newest>`, else "Current dataset" |
| DatasetStore.DataDir.ClearCurrentDataset | webapp/backend/main.py:335-342 | the new state is the live dataset emptied |
| DatasetStore.DataDir.EnsureDefaultDataset | webapp/backend/main.py:345-351 | the new state is the specification's default snapshot |
| DatasetStore.DataDir.ArchiveExistingDataset | webapp/backend/main.py:245-275 | the new state and returned stamp are those of the archive specification |
| DatasetStore.DataDir.MoveDatasetEntries | webapp/backend/main.py:252-268 | the loop over the live entries moves exactly the archivable ones and reports whether any moved |
| DatasetStore.DataDir.ListArchives | webapp/backend/main.py:354-358 | the archive names, each once, strictly sorted |
| DatasetStore.DataDir.DatasetHasContent | webapp/backend/main.py:278-290 | true exactly when some station file name exists, of any kind, or a date folder does |
| DatasetStore.DataDir.CopyDatasetContents | webapp/backend/main.py:318-332 | the destination overlaid with the source's entries not starting with `_` that are date folders, station files, the meta file or the `outputs` folder |
| DatasetStore.DataDir.LoadEntries | webapp/backend/main.py:318-332 | copying into an empty live directory makes it equal to the source entries |
| DatasetStore.DataDir.RestoreArchive | webapp/backend/main.py:395-440 | an error leaves the state as it was; success reaches the revert specification's state and drops the station cache |
| DatasetStore.DataDir.ApplyArchive | webapp/backend/main.py:443-476 | an error leaves the state as it was; success reaches the apply specification's state and drops the station cache |
| DatasetStore.DataDir.ApplyArchiveDataset | webapp/backend/main.py:824-847 | after an apply, the endpoint fails exactly when the applied dataset has no date folder, and otherwise reports its first and last day |
| DatasetStore.DataDir.DeleteArchive | webapp/backend/main.py:850-872 | the new state is the delete specification's, or unchanged with its error |
| DatasetStore.DataDir.ClearAllArchives | webapp/backend/main.py:875-898 | the new state is the clear-all specification's |
| DatasetStore.DataDir.AppendArchiveEntries | webapp/backend/main.py:799-809 | the entries already listed are kept in front, followed by one entry per archive name in the given order, with its stamp, path and recorded name |
| DatasetStore.DataDir.ListArchivedDatasets | webapp/backend/main.py:787-811 | the `_current` entry with the name `_current_dataset_entry` gives it and the `_default` entry, then every archive exactly once in name order, with its path and recorded name, flagged neither current nor default |
| DatasetStore.ArchivesListed | webapp/backend/main.py:798-809 | one entry per sorted archive name lists every archive exactly once, in name order |
| DatasetStore.DataDir.InferAvailableDateRange | webapp/backend/main.py:130-143 | an error exactly when no date folder exists; otherwise the earliest and latest day among them |
| DatasetStore.DataDir.PickPrecomputeRange | webapp/backend/main.py:495-501 | an error exactly when no date folder exists; otherwise the clamped range over the available days |
| DatasetStore.DataDir.SelectTrainFolders | webapp/backend/main.py:534-544 | a name is kept exactly when it is a date folder in the range holding `trains.csv`, and the kept names stay in sorted order |
| DatasetStore.DataDir.ListTrainCsvFiles | webapp/backend/main.py:528-551 | exactly the day folders in the range holding `trains.csv`, in day order; an error exactly when there is none |
| DatasetStore.DataDir.CopyImportable | webapp/backend/main.py:480-485 | the destination overlaid with exactly the source's station files and date folders |
| DatasetStore.DataDir.CopyDatasetIntoWebapp | webapp/backend/main.py:479-492 | the imported entries are laid over the live dataset, `outputs` exists afterwards, and the station cache is dropped |
| DatasetStore.DataDir.WriteDatasetMeta | webapp/backend/main.py:293-304 | the live dataset becomes the meta-written one |
| DatasetStore.DataDir.WriteStationsFile | webapp/backend/main.py:998-1000 | the write fails exactly when `stations.csv` is a folder; otherwise the file holds the upload |
| DatasetStore.DataDir.DateFolderNames | webapp/backend/main.py:943-947 | exactly the live date folders, strictly sorted |
| Upload.BranchFor | webapp/backend/main.py:914-916 | an upload mode is refused exactly when it is not one of `zip`, `folder`, `stations`, `full` or empty |
| Upload.ZipTree | webapp/backend/main.py:1020-1028 | a failed extraction is a 400 for a bad entry or a server error; a successful one is a well-formed tree with safe paths |
| Upload.FolderTree | webapp/backend/main.py:1038-1042 | folder uploads fail only with the count, path or server errors; success gives a well-formed tree holding the uploaded files, the last one at each path winning |
| Upload.UploadTreeCases | webapp/backend/main.py:923-1042 | `full` and `zip` read the ZIP they were given; a folder upload writes the files |
| Upload.ImportHasDateFolder | webapp/backend/main.py:935-940 | after an import from a found root, the live dataset has a date folder |
| Upload.MetaKeepsDateFolder | webapp/backend/main.py:293-304 | writing the meta file never removes the last date folder |
| Upload.ImportTree | webapp/backend/main.py:1028-1033 | no dataset root is a 400 that changes nothing; otherwise the old dataset is archived under the stamp, the root's contents go live, and a date folder is present |
| Upload.UploadStations | webapp/backend/main.py:992-1013 | a missing file and a non-`.csv` name are refused and change nothing; success writes the file and the meta, keeps the archives, and drops the cache |
| Upload.PrecomputeAfterImport | webapp/backend/main.py:1051-1054 | a precompute range is returned exactly when requested, and it is the range over the live days |
| Upload.UploadZip | webapp/backend/main.py:1015-1034 | a missing or non-`.zip` upload is refused; every error leaves the dataset unchanged; success archives, imports from a root, records the name, and returns the stamp and range |
| Upload.UploadFolder | webapp/backend/main.py:1035-1065 | no files is refused; path errors pass through unchanged; success archives, imports, records the name, and returns the stamp and range |
| Upload.WithStations | webapp/backend/main.py:956-962 | only `stations.csv` is written, with the upload's bytes |
| Upload.WritesKeepDateFolders | webapp/backend/main.py:956-973 | writing the stations file and the meta leaves the date folders as they are |
| Upload.ImportFullZip | webapp/backend/main.py:924-953 | the ZIP stage of `full` mode imports like `zip` mode and lists exactly the imported date folders, in order |
| Upload.UploadFull | webapp/backend/main.py:923-990 | both files missing is refused; a bad `.csv` name after a successful ZIP import leaves that import in place; precompute only with a ZIP; the stations file is written after the import |
| Upload.StationsOutcome | webapp/backend/main.py:992-1013| the `stations` branch's contract meets the endpoint's outcome: the live directory becomes the old one with the uploaded `stations.csv` and the recorded name |
| Upload.ZipOutcome | webapp/backend/main.py:1015-1034| the `zip` branch's contract meets the endpoint's outcome: the old dataset is archived under the stamp, the ZIP's dataset root goes live, and the name is recorded |
| Upload.FolderOutcome | webapp/backend/main.py:1035-1049| the folder branch's contract meets the endpoint's outcome: the old dataset is archived under the stamp, the folder's dataset root goes live, and the name is recorded |
| Upload.FullOutcome | webapp/backend/main.py:923-990| the `full` branch's contract meets the endpoint's outcome: with a ZIP, the ZIP's dataset is imported and then the stations file, when given, and the name are written; without one, the stations file and name are written over the live directory |
| Upload.RunBranch | webapp/backend/main.py:923-1065 | each branch reaches the outcome the endpoint promises for it, including the new data directory that branch builds |
| Upload.UploadData | webapp/backend/main.py:901-1066 | a bad mode is refused before anything changes; otherwise `_default` is ensured first and then the chosen branch's outcome holds |
| Text.Strip | webapp/backend/main.py:607 | the result is the input with a blank prefix and a blank suffix removed, has no whitespace at either end, and is empty exactly for blank input |
| Text.StripIdempotent | webapp/backend/main.py:607 | stripping twice is stripping once |
| Text.JoinSplit | webapp/backend/main.py:158 | joining the pieces of a split with the separator gives the input back |
| Text.SplitJoin | webapp/backend/main.py:180 | splitting a join of separator-free pieces gives the pieces back |
| Text.BelowTransitive | webapp/backend/main.py:358 | string order is transitive |
| Text.BelowTotal | webapp/backend/main.py:358 | any two distinct strings are ordered one way |
| Text.LastByName | webapp/backend/main.py:410-420 | the name-last element of a non-empty set |
| Text.SortByName | webapp/backend/main.py:354-358 | a set sorted by name: strictly increasing, each element once |
| Seqs.FilterMembers | scripts/fix_zero_coordinates.py:85-88 | a filter keeps exactly the elements that pass the test |
| Seqs.FilterIsSubsequence | scripts/fix_zero_coordinates.py:85-88 | a filter keeps the order of what it keeps |
| Seqs.LastWinsSpec | webapp/backend/main.py:589-594 | a map built by assignment holds every key some element stores under, with the value of the last such element |
| Seqs.CollectSpec | webapp/backend/main.py:596-598 | a map of sets built by `setdefault().add()` holds exactly the values of the elements under each key |
| StationCsv.LinesJoin | scripts/clean_stations.py:15-20 | the lines of a file hold no newline and join back to its text |
| StationCsv.HeaderDropped | scripts/clean_stations.py:16-19 | the header line is never among the data lines, whatever it holds |
| StationCsv.TrimEol | scripts/clean_stations.py:20 | only trailing `\n` and `\r` characters are removed, and all of them |
| StationCsv.Fields | scripts/clean_stations.py:23-34 | every rebuilt row has six fields |
| StationCsv.FieldsRoundTrip | scripts/clean_stations.py:23-34 | with at least six comma pieces, the rebuilt row joins back to the line |
| StationCsv.FieldsPadded | scripts/clean_stations.py:24-26 | with fewer than six pieces, the rebuilt row is the line padded with commas |
| StationCsv.FieldsOfJoin | scripts/clean_stations.py:23-34 | a six-field row whose fields other than the long name hold no comma is recovered from its comma join |
| StationCsv.RowsShape | scripts/clean_stations.py:19-34 | one six-field row per non-blank line, in order |
| StationCsv.RebuildRow | scripts/clean_stations.py:23-34 | a kept line becomes its six fields: code and region first, the last three pieces last, and the pieces between rejoined with commas as the long name, short lines padded with empty pieces |
| StationCsv.CleanLines | scripts/clean_stations.py:19-34 | the loop produces exactly the rows of the specification |
| StationCsv.RenderFieldsRoundTrip | scripts/clean_stations.py:37-40 | a row written with minimal quoting reads back as the same fields |
| StationCsv.DictRows | scripts/fix_remaining_coords.py:31-34 | the writer fails exactly when some row has a field not among the field names |
| StationRows.Relocated | scripts/fix_remaining_coords.py:27 | a relocated row has the new latitude and longitude and every other field unchanged |
| StationRows.SetAll | scripts/geocode_stations.py:185-189 | every row with the code is relocated, every other row is unchanged |
| StationRows.CountCodeBounds | scripts/geocode_stations.py:184-189 | the updated count is at most the number of rows, and zero exactly when no row has the code |
| StationRows.UpdateAll | scripts/geocode_stations.py:184-189 | the loop produces the rows with every match relocated and counts them |
| StationRows.SetFirst | scripts/fix_zero_coordinates.py:126-130 | only the first row with the code is relocated |
| StationRows.UpdateFirst | scripts/fix_zero_coordinates.py:126-130 | the loop with `break` relocates exactly the first row with the code |
| StationRows.UpdatesKeepStations | scripts/geocode_stations.py:185-189 | either update keeps each row's station: only the coordinates change |
| Coordinates.ParseFixedPoint | scripts/geocode_stations.py:33 | a plain decimal reads as the number its digits denote |
| Coordinates.InvalidMeansOutside | scripts/geocode_stations.py:30-47 | a row's coordinates are valid exactly when both read as numbers inside the box of latitude 36 to 47 and longitude 6 to 19 |
| FixRemainingCoords.CorrectedFields | scripts/fix_remaining_coords.py:25-27 | a listed station gets exactly the table's latitude and longitude with the other fields kept; any other row is unchanged |
| FixRemainingCoords.CorrectedIdempotent | scripts/fix_remaining_coords.py:25-27 | correcting a corrected row changes nothing |
| FixRemainingCoords.TableInItaly | scripts/fix_remaining_coords.py:4-16 | every position in the table reads as a point inside the box |
| FixRemainingCoords.CorrectedIsValid | scripts/fix_remaining_coords.py:4-27 | a corrected station no longer counts as having invalid coordinates |
| FixRemainingCoords.CorrectAllKeepsRows | scripts/fix_remaining_coords.py:24-28 | the rewrite keeps the number, order and codes of the rows, and applying it again changes nothing |
| FixRemainingCoords.ApplyCorrections | scripts/fix_remaining_coords.py:24-28 | the loop corrects every row |
| FixRemainingCoords.FixRemainingCoords | scripts/fix_remaining_coords.py:19-34 | a missing file ends the script with nothing written; otherwise the file is replaced by the header and the corrected rows |
| CleanStations.CleanedHeader | scripts/clean_stations.py:16-40 | the output starts with the fixed six-name header and its rows come from the lines after the first only |
| CleanStations.CleanStations | scripts/clean_stations.py:8-42 | a missing source stops the script and changes nothing; otherwise only the output file is written, with the cleaned text, and the row count is reported |
| BatchCleanStations.FirstExisting | scripts/batch_clean_stations.py:15-20 | the first candidate that exists, and none exactly when no candidate exists |
| BatchCleanStations.PickSource | scripts/batch_clean_stations.py:15-24 | the loop picks the first existing candidate |
| BatchCleanStations.ReplacedFiles | scripts/batch_clean_stations.py:46-59 | the fixed file and `stations.csv` both hold the cleaned text; the old `stations.csv` is kept as `.bak` when it existed; nothing else changes |
| BatchCleanStations.BatchCleanStations | scripts/batch_clean_stations.py:15-60 | no candidate exits with nothing written; otherwise the store is the replaced one and the row count is reported |
| Disk.Files.Write | scripts/fix_remaining_coords.py:31-34 | the file holds the new text and nothing else changes |
| Disk.Files.Copy | scripts/geocode_stations.py:204-205 | the target holds the source's text and nothing else changes |
| Disk.Files.Rename | scripts/fix_zero_coordinates.py:147 | the source is gone, the target holds its text, and nothing else changes |
| GeocodeStations.AnyHasCode | scripts/geocode_stations.py:119 | true exactly when some kept row has the code |
| GeocodeStations.FindInvalid | scripts/geocode_stations.py:114-120 | the loop keeps the first invalid row of each code, in order |
| GeocodeStations.UniqueSeen | scripts/geocode_stations.py:114-120 | a code is among the kept rows exactly when some invalid row has it |
| GeocodeStations.UniqueIsFirsts | scripts/geocode_stations.py:114-120 | the kept rows are exactly the invalid rows whose code no earlier invalid row has |
| GeocodeStations.UniqueDistinct | scripts/geocode_stations.py:114-120 | no two kept rows share a code |
| GeocodeStations.UniqueFromInput | scripts/geocode_stations.py:114-120 | every kept row is an invalid row of the input |
| GeocodeStations.ZeroOnlyAsWrittenRaises | scripts/geocode_stations.py:156-157 | a row whose latitude does not read as a number is invalid, and option 1 as written raises on it |
| GeocodeStations.ZeroOnlyAgrees | scripts/geocode_stations.py:156-157 | the corrected option 1 keeps exactly the invalid rows with latitude zero, in order, and agrees with the code as written whenever that does not raise |
| GeocodeStations.Select | scripts/geocode_stations.py:145-159 | only options 4 and 3 stop the script; option 1 keeps only rows with latitude zero (the corrected filter, see Left out), option 3 only rows with the entered code in upper case, any other choice every invalid row; never more rows than the invalid ones |
| GeocodeStations.SelectByCode | scripts/geocode_stations.py:145-159 | option 4 cancels, and nothing else does; option 3 fails exactly when no invalid row has the entered code in upper case, and otherwise keeps exactly those rows |
| GeocodeStations.SelectInOrder | scripts/geocode_stations.py:145-159 | any selection is a subsequence of the invalid rows |
| GeocodeStations.Queries | scripts/geocode_stations.py:53-61 | four queries per station |
| GeocodeStations.Accepted | scripts/geocode_stations.py:80-88 | an accepted answer lies inside the box |
| GeocodeStations.FirstAccepted | scripts/geocode_stations.py:63-98 | the first query with an accepted answer gives the result, and there is none exactly when no query is accepted |
| GeocodeStations.GeocodeStation | scripts/geocode_stations.py:49-98 | the loop over the queries returns the first accepted answer |
| GeocodeStations.Geocoded | scripts/geocode_stations.py:168-194 | fixed and not-found counts add up to the number of selected stations, and the row count is kept |
| GeocodeStations.GeocodedCounts | scripts/geocode_stations.py:168-194 | the fixed count is the number of selected stations the search locates |
| GeocodeStations.GeocodedKeeps | scripts/geocode_stations.py:179-189 | every row keeps its station, and a row whose code no located station has is unchanged |
| GeocodeStations.GeocodeAll | scripts/geocode_stations.py:168-194 | the loop produces the specification's rows and counts |
| GeocodeStations.GeocodeTarget | scripts/geocode_stations.py:173-194 | one pass of the loop: a found position is written into every row with the target's code and counted as fixed; a target with no position is counted as not found and changes no row |
| GeocodeStations.FinishWrites | scripts/geocode_stations.py:199-212 | the file is rewritten only when something was fixed; an existing backup is never overwritten; nothing else changes; the writer fails exactly when something was fixed and some row has a field outside the header |
| GeocodeStations.Save | scripts/geocode_stations.py:199-212 | the backup, the rewrite and the outcome on the file store are those `Finish` describes, a failing writer leaving the rewritten file behind |
| GeocodeStations.ScriptWritesAtEnd | scripts/geocode_stations.py:100-212 | every way the script stops before the save, finished or with a failing writer, leaves the files as they were |
| GeocodeStations.GeocodeStations | scripts/geocode_stations.py:100-214 | the script's effect on the files and its outcome are those of the specification |
| FixZeroCoordinates.CsvPathOf | scripts/fix_zero_coordinates.py:71-79 | the webapp copy is worked on when it exists, `data/stations.csv` exactly when it does not |
| FixZeroCoordinates.FindInvalid | scripts/fix_zero_coordinates.py:85-88 | the loop keeps every invalid row, in order |
| FixZeroCoordinates.InvalidInOrder | scripts/fix_zero_coordinates.py:85-88 | the kept rows are exactly the invalid ones, in order, each kept as often as it occurs in the input |
| FixZeroCoordinates.FetchAccepts | scripts/fix_zero_coordinates.py:56-67 | a pair is returned exactly when the position has two truthy, non-zero entries, and is then that position; otherwise `(None, None)` |
| FixZeroCoordinates.Fixed | scripts/fix_zero_coordinates.py:112-138 | fixed and not-found counts add up to the number of invalid rows, and the row count is kept |
| FixZeroCoordinates.FixedCounts | scripts/fix_zero_coordinates.py:116-135 | the fixed count is the number of invalid rows whose lookup succeeds |
| FixZeroCoordinates.FixedKeeps | scripts/fix_zero_coordinates.py:124-130 | every row keeps its code and station; a row without a code, or whose code an earlier row has, is never changed |
| FixZeroCoordinates.FixAll | scripts/fix_zero_coordinates.py:112-138 | the loop produces the specification's rows and counts |
| FixZeroCoordinates.SavedFiles | scripts/fix_zero_coordinates.py:143-164 | saving moves the old file to `.backup` and writes the new text; the copy to the webapp file never happens |
| FixZeroCoordinates.ScriptWrites | scripts/fix_zero_coordinates.py:69-164 | the files change only when the operator agreed and something was fixed, and then as the save describes; a failing writer is reported only when some fixed row has a field outside the header |
| FixZeroCoordinates.Finish | scripts/fix_zero_coordinates.py:143-155 | after the loop the outcome carries the counters, the writer fails exactly when something was fixed and some row has a field outside the header, and the files are saved only when something was fixed |
| FixZeroCoordinates.FixZeroCoordinates | scripts/fix_zero_coordinates.py:69-164 | the script's effect on the files and its outcome are those of the specification |

## Left out

- Statistics, plotting, the train-statistics caches, the SHA-256 cache keys, precomputation itself, and every endpoint not named above are not part of this model.
- HTTP plumbing is not modelled: FastAPI form parsing, CORS, and JSON sanitising.
- Background tasks are reduced to the returned precompute range.
- The station-index cache keyed by file modification time is reduced to one flag, `stationsCached`, which the handlers clear.
- `Station.by_code` (`src/scraper/station.py`) is not part of this model. Its answer is a parameter, and any exception it raises is the `Raised` lookup.
- The Nominatim search, `time.sleep`, `print`, and the operator's `input()` answers are parameters or left out.
- `str(float)` is the parameter `show`. Python's shortest round-trip float formatting is not modelled.
- Coordinates.ParseFloat: reads decimals exactly, so rounding to binary floating point is not modelled. A value within one unit in the last place of a box edge may compare differently. Underscores between digits and non-ASCII digits are not accepted.
- Text.Lower and Text.Upper: map ASCII letters only. Unicode case mapping is not modelled. Text.Strip follows Python's `str.isspace()` characters and needs no such restriction.
- File encodings are not modelled: the BOM, the `errors="replace"` decoding, and the fallback over encodings in `read_stations_csv` and `_read_csv_rows`.
- Text is modelled as `seq<char>`.
- Line splitting is on `\n` only. A lone `\r` or another universal-newline separator is not a line break in this model.
- `csv.DictReader` is not modelled: the scripts receive its field names and rows.
  - A short row's missing values are missing keys.
  - Extra values under `restkey` are not modelled.
- The geocoding and zero-coordinate scripts write with the reader's field names. The source uses `stations[0].keys()` (scripts/geocode_stations.py:209, scripts/fix_zero_coordinates.py:151). That list differs when the header lacks a `latitude` or `longitude` column that an update adds to the first row, or when the first row carries `restkey` extras: the source then writes with the longer list and succeeds, where the model, writing with the reader's field names, stops with `WriteFailed` after writing the header and the rows before the first row with a field outside it. Where the source's writer fails too, the model ends the same way.
- StationCsv.DictRows: the writer's `ValueError` on an extra field is a `failed` flag beside the text written before it (the rows before the failing one, after the header that `DictText` adds). The scripts turn the flag into their `WriteFailed` outcome; the exception's message and traceback are not modelled.
- Aliasing is not modelled. `invalid_stations` holds the same dictionaries as `stations`, so an update made through one is visible through the other. Neither script reads a selected row after updating it, so the values model gives the same result.
- Paths.FindDatasetRoot: among equally shallow candidate roots, `os.walk` order decides in the source. The model may return any of them.
- DatasetStore.Archive: when an archive with the same stamp already exists (two uploads in one second), the moved entries are merged into it. The source's `shutil.move` would nest or fail in some of these cases.
- DatasetStore.DataDir.CopyDatasetContents: `copytree` onto a date or `outputs` folder that already exists in the destination raises `FileExistsError` in the source; the model lays the copied files over it. The callers copy into a live directory that was just cleared, or into a `_default` without content.
- DatasetStore.DataDir.CopyDatasetIntoWebapp: `copytree` onto an existing folder raises `FileExistsError` in the source; the model lays the new files over the old ones.
- Archive stamps are plain names. Path-like stamps such as `..` or `a/b`, given to revert, apply or delete, are not modelled.
- Paths.ExtractZip: a file whose path is a folder of another file is a server error (500). Python's exact `OSError` is not modelled.
- GeocodeStations.GeocodeStations: the script runs the corrected option 1 (`ZeroOnly`). As written, the source raises `ValueError` at scripts/geocode_stations.py:157 on an invalid station whose latitude does not read as a number and writes nothing. That case is only exhibited by `ZeroOnlyAsWrittenRaises`; `Select` and `Script` do not produce it.
- DatasetStore.DataDir.EnsureDefaultDataset: when `_default` has no content but already holds an `outputs` folder, the source's `copytree` into it raises `FileExistsError` (webapp/backend/main.py:327-351). The model lays the copied files over it instead.
- Dates.ParseDate: accepts only `YYYY-MM-DD`. From Python 3.11 on, `date.fromisoformat` also reads forms such as `YYYYMMDD` and ISO week dates; folders named that way are not date folders in this model.
- StationIndex.ParseInt: accepts ASCII digits only. Python's `int()` also takes `_` between digits and non-ASCII digits.
- FixRemainingCoords.FixRemainingCoords: on an empty file, `DictReader.fieldnames` is `None` and the source's `DictWriter` raises `TypeError`. The model writes the header of an empty field list instead.
- DatasetStore.CurrentNamed: a recorded name that is not a string (a JSON number, say) is not modelled; the meta file is modelled by the text of its name.
- Concurrency between requests is not modelled.

## Findings

| source | as written | input that shows it | evidently intended | confidence | as-written member | corrected member |
|---|---|---|---|---|---|---|
| scripts/geocode_stations.py:156-157 | option 1 evaluates `float(latitude or 0)` on every invalid station. A station is invalid when its latitude does not parse, so the script stops with an uncaught `ValueError` | a station row with code `S1` and latitude `x`, then option 1 | select the invalid stations whose latitude is zero and skip the unreadable ones | not executed | GeocodeStations.ZeroOnlyAsWrittenRaises | GeocodeStations.ZeroOnlyAgrees |
