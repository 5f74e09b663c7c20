/**
  `scripts/fix_zero_coordinates.py`: find every row of the station file whose coordinates are
  invalid, ask the station service for each one's position by its code, write an accepted
  position into the first row with that code, and write the file back after moving the old
  one aside as `.csv.backup`.

  The service, the operator's answers and Python's `str()` of a float are parameters: `fetch`
  gives what `Station.by_code` yields for a code, and `show` the text written for a number.
 */
module FixZeroCoordinates {
  import opened Results
  import opened Text
  import opened Seqs
  import opened Disk
  import opened StationCsv
  import opened Coordinates
  import opened StationRows

  const WebappCsv := "webapp/data/stations.csv"
  const DataCsv := "data/stations.csv"

  /** The file the script fixes: the web application's copy when it exists, the data one otherwise. */
  function CsvPathOf(files: map<string, string>): (path: string)
    ensures path == WebappCsv || path == DataCsv
    ensures path == DataCsv <==> WebappCsv !in files
  {
    if WebappCsv in files then WebappCsv else DataCsv
  }

  /** `csv_path.with_suffix('.csv.backup')` for either file, both of which end in `.csv`. */
  function BackupOf(path: string): string {
    path + ".backup"
  }

  // ---------------------------------------------------------------------
  // The invalid rows

  /** The loop that builds `invalid_stations`: every invalid row, repeated codes included. */
  method FindInvalid(stations: seq<Row>) returns (invalid: seq<Row>)
    ensures invalid == Filter(stations, HasInvalidCoords)
  {
    invalid := [];
    for i := 0 to |stations|
      invariant invalid == Filter(stations[..i], HasInvalidCoords)
    {
      FilterStep(stations, i, HasInvalidCoords);
      if HasInvalidCoords(stations[i]) {
        invalid := invalid + [stations[i]];
      }
    }
    assert stations[..|stations|] == stations;
  }

  /** The list keeps exactly the invalid rows, in input order, with no deduplication: each
      invalid row is kept as often as it occurs, so two invalid rows with the same code are
      both in it. */
  lemma InvalidInOrder(stations: seq<Row>)
    ensures forall x :: x in Filter(stations, HasInvalidCoords) <==> x in stations && HasInvalidCoords(x)
    ensures Subsequence(Filter(stations, HasInvalidCoords), stations)
    ensures forall x :: multiset(Filter(stations, HasInvalidCoords))[x] == if HasInvalidCoords(x) then multiset(stations)[x] else 0
  {
    forall x {
      FilterMembers(stations, HasInvalidCoords, x);
    }
    forall x {
      FilterCounts(stations, HasInvalidCoords, x);
    }
    FilterIsSubsequence(stations, HasInvalidCoords);
  }

  // ---------------------------------------------------------------------
  // `fetch_station_coords`

  /** What `Station.by_code` gives: an exception, no station, or a station and its `position`
      (a missing position reads as the empty one; each entry is a number or `None`). */
  datatype Lookup = Raised | NoStation | Station(position: seq<Option<Number>>)

  /** Python's truth value of a float or `None`: a number other than zero. */
  predicate Truthy(x: Option<Number>) {
    x.Some? && x.value != Finite(0.0)
  }

  /** `fetch_station_coords(code)` given what the service gave: the position's two entries, or
      `(None, None)`. */
  function FetchStationCoords(l: Lookup): (Option<Number>, Option<Number>) {
    match l
    case Station(position) =>
      if |position| == 2 && Truthy(position[0]) && Truthy(position[1])
         && position[0].value != Finite(0.0) && position[1].value != Finite(0.0)
      then (position[0], position[1])
      else (None, None)
    case _ => (None, None)
  }

  /** `if lat and lon` in the caller holds exactly when the service gave a position of exactly
      two non-zero numbers, and the pair is then that position; otherwise it is `(None, None)`. */
  lemma FetchAccepts(l: Lookup)
    ensures var (lat, lon) := FetchStationCoords(l);
      (Truthy(lat) && Truthy(lon)) <==> (l.Station? && |l.position| == 2 && Truthy(l.position[0]) && Truthy(l.position[1]))
    ensures var (lat, lon) := FetchStationCoords(l);
      (Truthy(lat) && Truthy(lon) ==> l.Station? && [lat, lon] == l.position)
      && (!(Truthy(lat) && Truthy(lon)) ==> lat.None? && lon.None?)
  {
    if l.Station? && |l.position| == 2 {
      assert l.position == [l.position[0], l.position[1]];
    }
  }

  // ---------------------------------------------------------------------
  // The lookup loop

  datatype Progress = Progress(stations: seq<Row>, fixed: nat, notFound: nat)

  /** One pass of the loop: a found position is written into the first row with the target's
      code and counted as fixed; otherwise the target is counted as not found. */
  function Advance(p: Progress, code: string, found: (Option<Number>, Option<Number>), show: Number -> string): Progress {
    if Truthy(found.0) && Truthy(found.1) then
      Progress(SetFirst(p.stations, code, show(found.0.value), show(found.1.value)), p.fixed + 1, p.notFound)
    else p.(notFound := p.notFound + 1)
  }

  /** The rows and the two counters after the loop over `targets`. */
  function Fixed(stations: seq<Row>, targets: seq<Row>, fetch: string -> Lookup, show: Number -> string): (p: Progress)
    ensures p.fixed + p.notFound == |targets|
    ensures |p.stations| == |stations|
  {
    if targets == [] then Progress(stations, 0, 0)
    else
      var t := targets[|targets| - 1];
      Advance(Fixed(stations, targets[..|targets| - 1], fetch, show), CodeOf(t), FetchStationCoords(fetch(CodeOf(t))), show)
  }

  /** One more target, as the loop takes it. */
  lemma FixedStep(stations: seq<Row>, targets: seq<Row>, i: int, fetch: string -> Lookup, show: Number -> string)
    requires 0 <= i < |targets|
    ensures Fixed(stations, targets[..i + 1], fetch, show) ==
      Advance(Fixed(stations, targets[..i], fetch, show), CodeOf(targets[i]), FetchStationCoords(fetch(CodeOf(targets[i]))), show)
  {
    assert targets[..i + 1][..i] == targets[..i];
  }

  /** The service gives an accepted position for the target's code. */
  function Located(fetch: string -> Lookup): Row -> bool {
    t => var (lat, lon) := FetchStationCoords(fetch(CodeOf(t))); Truthy(lat) && Truthy(lon)
  }

  /** The fixed counter counts the targets whose code the service located. */
  lemma {:induction false} FixedCounts(stations: seq<Row>, targets: seq<Row>, fetch: string -> Lookup, show: Number -> string)
    ensures Fixed(stations, targets, fetch, show).fixed == |Filter(targets, Located(fetch))|
  {
    if targets != [] {
      var init := targets[..|targets| - 1];
      FixedCounts(stations, init, fetch, show);
      assert targets == init + [targets[|targets| - 1]];
      FilterSnoc(init, targets[|targets| - 1], Located(fetch));
    }
  }

  /** Row `k` is the first row with its code, and it has one. */
  predicate Leading(rows: seq<Row>, k: int) {
    0 <= k < |rows| && GetCode(rows[k]).Some? && forall j :: 0 <= j < k ==> GetCode(rows[j]) != GetCode(rows[k])
  }

  /** Every row keeps its code and its other fields; a row without a code, or one whose code an
      earlier row already has, is never changed, because the loop stops at the first row with
      the code. */
  lemma {:induction false} FixedKeeps(stations: seq<Row>, targets: seq<Row>, fetch: string -> Lookup, show: Number -> string)
    ensures forall k :: 0 <= k < |stations| ==>
      GetCode(Fixed(stations, targets, fetch, show).stations[k]) == GetCode(stations[k])
      && SameStation(stations[k], Fixed(stations, targets, fetch, show).stations[k])
    ensures forall k :: 0 <= k < |stations| && !Leading(stations, k) ==> Fixed(stations, targets, fetch, show).stations[k] == stations[k]
  {
    if targets != [] {
      var init := targets[..|targets| - 1];
      var t := targets[|targets| - 1];
      FixedKeeps(stations, init, fetch, show);
      var p := Fixed(stations, init, fetch, show);
      var (lat, lon) := FetchStationCoords(fetch(CodeOf(t)));
      if Truthy(lat) && Truthy(lon) {
        var r := SetFirst(p.stations, CodeOf(t), show(lat.value), show(lon.value));
        UpdatesKeepStations(p.stations, CodeOf(t), show(lat.value), show(lon.value));
        forall k | 0 <= k < |stations| ensures GetCode(r[k]) == GetCode(stations[k]) {
          if IsFirst(p.stations, CodeOf(t), k) {
            assert r[k] == Relocated(p.stations[k], show(lat.value), show(lon.value));
          }
        }
        forall k | 0 <= k < |stations| && !Leading(stations, k) ensures r[k] == stations[k] {
          if IsFirst(p.stations, CodeOf(t), k) {
            var j :| 0 <= j < k && GetCode(stations[j]) == GetCode(stations[k]);
            assert HasCode(p.stations[j], CodeOf(t));
          }
        }
      }
    }
  }

  /** The loop over `invalid_stations`. */
  method FixAll(stations: seq<Row>, targets: seq<Row>, fetch: string -> Lookup, show: Number -> string) returns (p: Progress)
    ensures p == Fixed(stations, targets, fetch, show)
  {
    p := Progress(stations, 0, 0);
    for i := 0 to |targets|
      invariant p == Fixed(stations, targets[..i], fetch, show)
    {
      FixedStep(stations, targets, i, fetch, show);
      var code := CodeOf(targets[i]);
      var (lat, lon) := FetchStationCoords(fetch(code));
      if Truthy(lat) && Truthy(lon) {
        var rows := UpdateFirst(p.stations, code, show(lat.value), show(lon.value));
        p := Progress(rows, p.fixed + 1, p.notFound);
      } else {
        p := p.(notFound := p.notFound + 1);
      }
    }
    assert targets[..|targets|] == targets;
  }

  // ---------------------------------------------------------------------
  // The script

  /** How the script ends. */
  datatype Outcome =
    | NoFile(path: string)
    | NothingToFix
    | Declined
    | Finished(fixed: nat, notFound: nat)
      /** `csv.DictWriter` raised `ValueError` on a row with a field outside the field names,
          after the rename and after writing the header and the rows before it. */
    | WriteFailed(fixed: nat, notFound: nat)

  /** The file store after the rows were written back: the file is renamed to its backup, a new
      one is written, and, when the data file was fixed and the web application's copy exists,
      the operator's `again` decides whether the copy is replaced. */
  function Saved(files: map<string, string>, path: string, fieldnames: seq<string>, rows: seq<Row>, again: string): map<string, string>
    requires path in files
  {
    var written := DictText(fieldnames, rows);
    var after := (files - {path})[BackupOf(path) := files[path]][path := written.text];
    if !written.failed && path == DataCsv && WebappCsv in after && Lower(again) == "y" then after[WebappCsv := written.text] else after
  }

  /** The whole script: how it ends and the file store it leaves. `stations` and `fieldnames`
      are what `read_stations_csv` reads from the file; `answer` and `again` are what the
      operator types at the two prompts. */
  function Script(files: map<string, string>, fieldnames: seq<string>, stations: seq<Row>,
                  answer: string, again: string,
                  fetch: string -> Lookup, show: Number -> string): (Outcome, map<string, string>)
  {
    var path := CsvPathOf(files);
    if path !in files then (NoFile(path), files)
    else
      var invalid := Filter(stations, HasInvalidCoords);
      if invalid == [] then (NothingToFix, files)
      else if Lower(answer) != "y" then (Declined, files)
      else
        Finish(files, path, fieldnames, Fixed(stations, invalid, fetch, show), again)
  }

  /** The end of the script once the loop ran: the counters, and the rows saved only when a
      position was found; a failing writer ends the script. */
  function Finish(files: map<string, string>, path: string, fieldnames: seq<string>, p: Progress, again: string): (r: (Outcome, map<string, string>))
    requires path in files
    ensures r.0 == Finished(p.fixed, p.notFound) || r.0 == WriteFailed(p.fixed, p.notFound)
    ensures r.0.WriteFailed? <==> p.fixed > 0 && exists i :: 0 <= i < |p.stations| && !FieldsAmong(fieldnames, p.stations[i])
    ensures r.1 == if p.fixed > 0 then Saved(files, path, fieldnames, p.stations, again) else files
  {
    if p.fixed == 0 then (Finished(p.fixed, p.notFound), files)
    else if DictText(fieldnames, p.stations).failed then (WriteFailed(p.fixed, p.notFound), Saved(files, path, fieldnames, p.stations, again))
    else (Finished(p.fixed, p.notFound), Saved(files, path, fieldnames, p.stations, again))
  }

  /** The old file is kept as the backup, an existing backup being replaced; the file holds the
      rows; nothing else changes. The copy onto the web application's file never happens: the
      data file is fixed only when that copy does not exist. */
  lemma SavedFiles(files: map<string, string>, fieldnames: seq<string>, rows: seq<Row>, again: string)
    requires CsvPathOf(files) in files
    ensures var path := CsvPathOf(files);
      var after := Saved(files, path, fieldnames, rows, again);
      after == files[BackupOf(path) := files[path]][path := DictText(fieldnames, rows).text]
      && (path == DataCsv ==> WebappCsv !in after)
  {
    var path := CsvPathOf(files);
    var text := DictText(fieldnames, rows).text;
    assert BackupOf(DataCsv)[0] != WebappCsv[0] && DataCsv != WebappCsv;
    assert (files - {path})[BackupOf(path) := files[path]][path := text] == files[BackupOf(path) := files[path]][path := text];
  }

  /** The file store changes only when some position was found, and then the old file is kept
      as the backup; the writer fails exactly when a fixed row has a field outside the field
      names, and the files are then as the save leaves them. */
  lemma ScriptWrites(files: map<string, string>, fieldnames: seq<string>, stations: seq<Row>,
                     answer: string, again: string, fetch: string -> Lookup, show: Number -> string)
    ensures var (outcome, after) := Script(files, fieldnames, stations, answer, again, fetch, show);
      (after != files ==> (outcome.Finished? || outcome.WriteFailed?) && outcome.fixed > 0)
      && (outcome.WriteFailed? ==> var rows := Fixed(stations, Filter(stations, HasInvalidCoords), fetch, show).stations;
            exists i :: 0 <= i < |rows| && !FieldsAmong(fieldnames, rows[i]))
      && ((outcome.Finished? || outcome.WriteFailed?) && outcome.fixed > 0 ==>
            var path := CsvPathOf(files);
            path in files && after == files[BackupOf(path) := files[path]][path := DictText(fieldnames, Fixed(stations, Filter(stations, HasInvalidCoords), fetch, show).stations).text])
  {
    var path := CsvPathOf(files);
    if path in files {
      var invalid := Filter(stations, HasInvalidCoords);
      if invalid != [] && Lower(answer) == "y" {
        var p := Fixed(stations, invalid, fetch, show);
        FinishSaves(files, fieldnames, p, again);
        assert Script(files, fieldnames, stations, answer, again, fetch, show) == Finish(files, path, fieldnames, p, again);
      }
    }
  }

  /** `ScriptWrites` once the loop ran, in terms of its progress `p`. */
  lemma FinishSaves(files: map<string, string>, fieldnames: seq<string>, p: Progress, again: string)
    requires CsvPathOf(files) in files
    ensures var path := CsvPathOf(files);
      var (outcome, after) := Finish(files, path, fieldnames, p, again);
      (after != files ==> outcome.fixed > 0)
      && (outcome.WriteFailed? ==> exists i :: 0 <= i < |p.stations| && !FieldsAmong(fieldnames, p.stations[i]))
      && (outcome.fixed > 0 ==> after == files[BackupOf(path) := files[path]][path := DictText(fieldnames, p.stations).text])
  {
    SavedFiles(files, fieldnames, p.stations, again);
  }

  /** `main()` on the file store. */
  method FixZeroCoordinates(fs: Files, fieldnames: seq<string>, stations: seq<Row>,
                            answer: string, again: string,
                            fetch: string -> Lookup, show: Number -> string) returns (outcome: Outcome)
    modifies fs
    ensures (outcome, fs.contents) == Script(old(fs.contents), fieldnames, stations, answer, again, fetch, show)
  {
    var path := if WebappCsv in fs.contents then WebappCsv else DataCsv;
    if path !in fs.contents {
      return NoFile(path);
    }
    var invalid := FindInvalid(stations);
    if invalid == [] {
      return NothingToFix;
    }
    if Lower(answer) != "y" {
      return Declined;
    }
    var p := FixAll(stations, invalid, fetch, show);
    if p.fixed > 0 {
      fs.Rename(path, BackupOf(path));
      var written := DictText(fieldnames, p.stations);
      fs.Write(path, written.text);
      if written.failed {
        return WriteFailed(p.fixed, p.notFound);
      }
      if path == DataCsv && WebappCsv in fs.contents && Lower(again) == "y" {
        fs.Write(WebappCsv, written.text);
      }
    }
    outcome := Finished(p.fixed, p.notFound);
  }
}
