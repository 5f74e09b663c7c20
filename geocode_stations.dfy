/**
  `scripts/geocode_stations.py`: find the stations of `webapp/data/stations.csv` whose
  coordinates are invalid, one row per code; let the operator choose which to look up; ask a
  geocoding service for each, under four queries; write every accepted position into all the
  rows with that station's code; and write the file back, keeping the first backup.

  The service, the operator's answers and Python's `str()` of a float are parameters:
  `search` gives the service's answer to a query, and `show` the text written for a number.
 */
module GeocodeStations {
  import opened Results
  import opened Text
  import opened Seqs
  import opened Disk
  import opened StationCsv
  import opened Coordinates
  import opened StationRows
  import opened Dates

  const CsvPath := "webapp/data/stations.csv"
  /** `webapp_csv.with_suffix('.csv.geo_backup')` */
  const BackupPath := "webapp/data/stations.csv.geo_backup"

  // ---------------------------------------------------------------------
  // The stations with invalid coordinates, one per code

  /** `any(s.get('code') == code for s in kept)` */
  predicate Seen(kept: seq<Row>, code: string) {
    exists s :: s in kept && HasCode(s, code)
  }

  /** `invalid_stations` after the loop over `rows`, where `bad` is `has_invalid_coords`: a bad
      row is appended unless a row already appended has its code. */
  function Unique(rows: seq<Row>, bad: Row -> bool): seq<Row> {
    if rows == [] then []
    else
      var kept := Unique(rows[..|rows| - 1], bad);
      var row := rows[|rows| - 1];
      if bad(row) && !Seen(kept, CodeOf(row)) then kept + [row] else kept
  }

  /** Row `i` is bad and no bad row before it has its code. */
  ghost predicate FirstBad(rows: seq<Row>, bad: Row -> bool, i: int) {
    0 <= i < |rows| && bad(rows[i])
    && forall j :: 0 <= j < i && bad(rows[j]) ==> !HasCode(rows[j], CodeOf(rows[i]))
  }

  /** The rows `i` with `FirstBad(rows, bad, i)`, in order. */
  ghost function FirstBads(rows: seq<Row>, bad: Row -> bool): seq<Row> {
    if rows == [] then []
    else FirstBads(rows[..|rows| - 1], bad) + if FirstBad(rows, bad, |rows| - 1) then [rows[|rows| - 1]] else []
  }

  /** A code is among the kept rows exactly when some bad row has it. */
  lemma {:induction false} UniqueSeen(rows: seq<Row>, bad: Row -> bool, code: string)
    ensures Seen(Unique(rows, bad), code) <==> exists i :: 0 <= i < |rows| && bad(rows[i]) && HasCode(rows[i], code)
  {
    if rows != [] {
      var init := rows[..|rows| - 1];
      var row := rows[|rows| - 1];
      var kept := Unique(init, bad);
      var u := Unique(rows, bad);
      UniqueSeen(init, bad, code);
      assert forall i :: 0 <= i < |init| ==> init[i] == rows[i];
      assert forall s :: s in kept ==> s in u;
      if Seen(u, code) {
        var s :| s in u && HasCode(s, code);
        if s !in kept {
          assert bad(rows[|rows| - 1]) && HasCode(rows[|rows| - 1], code);
        }
      }
      if bad(row) && HasCode(row, code) {
        if !Seen(kept, CodeOf(row)) {
          assert row in u;
        }
      }
    }
  }

  /** The list holds, in input order, exactly the first bad row of every code: a row is kept
      when it is bad and no earlier bad row has its code. */
  lemma {:induction false} UniqueIsFirsts(rows: seq<Row>, bad: Row -> bool)
    ensures Unique(rows, bad) == FirstBads(rows, bad)
  {
    if rows != [] {
      var init := rows[..|rows| - 1];
      var row := rows[|rows| - 1];
      UniqueIsFirsts(init, bad);
      UniqueSeen(init, bad, CodeOf(row));
      assert forall i :: 0 <= i < |init| ==> init[i] == rows[i];
    }
  }

  /** Two kept rows never share a code as `s.get('code') == code` compares them. */
  lemma {:induction false} UniqueDistinct(rows: seq<Row>, bad: Row -> bool)
    ensures forall i, j :: 0 <= i < j < |Unique(rows, bad)| ==> !HasCode(Unique(rows, bad)[i], CodeOf(Unique(rows, bad)[j]))
  {
    if rows != [] {
      var init := rows[..|rows| - 1];
      var kept := Unique(init, bad);
      UniqueDistinct(init, bad);
      var row := rows[|rows| - 1];
      if bad(row) && !Seen(kept, CodeOf(row)) {
        var u := kept + [row];
        forall i, j | 0 <= i < j < |u| ensures !HasCode(u[i], CodeOf(u[j])) {
          if j == |kept| {
            assert u[i] in kept;
          }
        }
      }
    }
  }

  /** Every kept row is a bad row of the input. */
  lemma {:induction false} UniqueFromInput(rows: seq<Row>, bad: Row -> bool)
    ensures forall x :: x in Unique(rows, bad) ==> x in rows && bad(x)
  {
    if rows != [] {
      var init := rows[..|rows| - 1];
      UniqueFromInput(init, bad);
      assert forall x :: x in init ==> x in rows;
    }
  }

  /** The `any(...)` generator as a loop. */
  method AnyHasCode(kept: seq<Row>, code: string) returns (found: bool)
    ensures found == Seen(kept, code)
  {
    for i := 0 to |kept|
      invariant forall j :: 0 <= j < i ==> !HasCode(kept[j], code)
    {
      if GetCode(kept[i]) == Some(code) {
        assert kept[i] in kept;
        return true;
      }
    }
    return false;
  }

  /** The loop that builds `invalid_stations`. */
  method FindInvalid(stations: seq<Row>) returns (invalid: seq<Row>)
    ensures invalid == Unique(stations, HasInvalidCoords)
  {
    invalid := [];
    for i := 0 to |stations|
      invariant invalid == Unique(stations[..i], HasInvalidCoords)
    {
      assert stations[..i + 1][..i] == stations[..i];
      var station := stations[i];
      if HasInvalidCoords(station) {
        var code := CodeOf(station);
        var seen := AnyHasCode(invalid, code);
        if !seen {
          invalid := invalid + [station];
        }
      }
    }
    assert stations[..|stations|] == stations;
  }

  // ---------------------------------------------------------------------
  // The operator's choice

  /** Why the script stops before looking anything up. */
  datatype Stop = Cancelled | NoSuchStation(code: string)

  /** `s.get('code', '').upper() == code` */
  function CodeMatches(code: string): Row -> bool {
    s => Upper(CodeOf(s)) == code
  }

  /** `float(s.get('latitude', 0) or 0) == 0` for a latitude that reads as a number. */
  predicate LatitudeZero(row: Row) {
    CoordOf(row, "latitude") == Some(Finite(0.0))
  }

  /** Option 1 as written: the comprehension raises `ValueError` at the first row whose latitude
      does not read as a number, which ends the script. */
  function ZeroOnlyAsWritten(invalid: seq<Row>): Option<seq<Row>> {
    if invalid == [] then Some([])
    else
      match CoordOf(invalid[0], "latitude")
      case None => None
      case Some(lat) =>
        match ZeroOnlyAsWritten(invalid[1..])
        case None => None
        case Some(rest) => Some((if lat == Finite(0.0) then [invalid[0]] else []) + rest)
  }

  /** Option 1 as intended: the invalid rows whose latitude is zero, skipping those whose
      latitude does not read as a number. */
  function ZeroOnly(invalid: seq<Row>): seq<Row> {
    Filter(invalid, LatitudeZero)
  }

  /** A row whose latitude does not read as a number is invalid, and option 1 as written stops
      the script on it. */
  lemma ZeroOnlyAsWrittenRaises()
    ensures var row := map["code" := "S1", "latitude" := "x"];
      HasInvalidCoords(row) && ZeroOnlyAsWritten([row]).None?
  {
    var row := map["code" := "S1", "latitude" := "x"];
    NotANumber("x");
    assert CoordOf(row, "latitude").None?;
  }

  /** `x` is no number `float` reads. */
  lemma NotANumber(x: string)
    requires x == "x"
    ensures ParseFloat(x).None?
  {
    assert Strip(x) == x by {
      StripKeeps(x);
    }
    assert Lower(x) == x;
    assert FirstOf(x, 'e', 'E') == 1 && FirstOf(x, '.', '.') == 1;
    assert !AllDigits(x);
  }

  /** The intended option 1 keeps exactly the invalid rows whose latitude reads as zero, in
      order, and agrees with the code as written whenever the latter does not raise. */
  lemma {:induction false} ZeroOnlyAgrees(invalid: seq<Row>)
    ensures forall x :: x in ZeroOnly(invalid) <==> x in invalid && LatitudeZero(x)
    ensures Subsequence(ZeroOnly(invalid), invalid)
    ensures ZeroOnlyAsWritten(invalid).Some? <==> forall i :: 0 <= i < |invalid| ==> CoordOf(invalid[i], "latitude").Some?
    ensures ZeroOnlyAsWritten(invalid).Some? ==> ZeroOnlyAsWritten(invalid).value == ZeroOnly(invalid)
  {
    forall x {
      FilterMembers(invalid, LatitudeZero, x);
    }
    FilterIsSubsequence(invalid, LatitudeZero);
    if invalid != [] {
      ZeroOnlyAgrees(invalid[1..]);
      assert forall i :: 1 <= i < |invalid| ==> invalid[1..][i - 1] == invalid[i];
    }
  }

  /** `to_geocode` for the option the operator typed (`choice`) and, for option 3, the code
      they entered. */
  function Select(invalid: seq<Row>, choice: string, entered: string): (r: Result<seq<Row>, Stop>)
    ensures r.Err? ==> Strip(choice) == "4" || Strip(choice) == "3"
    ensures r.Ok? ==> |r.value| <= |invalid|
    ensures Strip(choice) == "1" ==> r.Ok? && forall i :: 0 <= i < |r.value| ==> LatitudeZero(r.value[i])
    ensures Strip(choice) == "3" && r.Ok? ==> forall i :: 0 <= i < |r.value| ==> Upper(CodeOf(r.value[i])) == Upper(Strip(entered))
    ensures Strip(choice) !in {"1", "3", "4"} ==> r == Ok(invalid)
  {
    var option := Strip(choice);
    if option == "4" then Err(Cancelled)
    else if option == "3" then
      var code := Upper(Strip(entered));
      var picked := Filter(invalid, CodeMatches(code));
      if picked == [] then Err(NoSuchStation(code)) else Ok(picked)
    else if option == "1" then Ok(ZeroOnly(invalid))
    else Ok(invalid)
  }

  /** Option 4 cancels; option 3 picks exactly the invalid rows whose code matches the entered
      one in any letter case, and stops the script when there is none. */
  lemma SelectByCode(invalid: seq<Row>, choice: string, entered: string)
    ensures Strip(choice) == "4" <==> Select(invalid, choice, entered) == Err(Cancelled)
    ensures Strip(choice) == "3" ==>
      var code := Upper(Strip(entered));
      (Select(invalid, choice, entered).Err? <==> forall x :: x in invalid ==> Upper(CodeOf(x)) != code)
      && (Select(invalid, choice, entered).Ok? ==>
            forall x :: x in Select(invalid, choice, entered).value <==> x in invalid && Upper(CodeOf(x)) == code)
  {
    var code := Upper(Strip(entered));
    FilterNone(invalid, CodeMatches(code));
    forall x {
      FilterMembers(invalid, CodeMatches(code), x);
    }
  }

  /** Every option picks invalid rows in their order. */
  lemma SelectInOrder(invalid: seq<Row>, choice: string, entered: string)
    ensures Select(invalid, choice, entered).Ok? ==> Subsequence(Select(invalid, choice, entered).value, invalid)
  {
    FilterIsSubsequence(invalid, CodeMatches(Upper(Strip(entered))));
    FilterIsSubsequence(invalid, LatitudeZero);
    SubsequenceSelf(invalid);
  }

  // ---------------------------------------------------------------------
  // `geocode_station`

  /** What the service gives for one query: an error of any kind (network, HTTP status, a
      reply that is not JSON or lacks `lat`/`lon`), no result, or the `lat` and `lon` texts of
      the first result. */
  datatype Answer = Failed | NoResult | First(lat: string, lon: string)

  /** The four queries, in the order they are tried. */
  function Queries(name: string): (q: seq<string>)
    ensures |q| == 4
  {
    var n := Strip(name);
    [n + " stazione ferroviaria Italy", n + " train station Italy", n + " railway station Italy", n + " Italy"]
  }

  /** The position an answer gives, when both texts read as numbers inside the box. */
  function Accepted(a: Answer): (r: Option<(real, real)>)
    ensures r.Some? ==> InItaly(Finite(r.value.0), Finite(r.value.1))
  {
    match a
    case First(lat, lon) =>
      var x, y := ParseFloat(lat), ParseFloat(lon);
      if x.Some? && y.Some? && InItaly(x.value, y.value) then Some((x.value.value, y.value.value)) else None
    case _ => None
  }

  /** The position of the first query whose answer is accepted. */
  function FirstAccepted(queries: seq<string>, search: string -> Answer): (r: Option<(real, real)>)
    ensures r.None? <==> forall i :: 0 <= i < |queries| ==> Accepted(search(queries[i])).None?
    ensures r.Some? ==> InItaly(Finite(r.value.0), Finite(r.value.1))
    ensures r.Some? ==>
      exists i :: 0 <= i < |queries| && Accepted(search(queries[i])) == r && forall j :: 0 <= j < i ==> Accepted(search(queries[j])).None?
  {
    if queries == [] then None
    else if Accepted(search(queries[0])).Some? then Accepted(search(queries[0]))
    else
      var r := FirstAccepted(queries[1..], search);
      FirstAcceptedLater(queries, search, r);
      r
  }

  /** A first query that is not accepted moves the first accepted one a place later. */
  lemma FirstAcceptedLater(queries: seq<string>, search: string -> Answer, r: Option<(real, real)>)
    requires queries != [] && Accepted(search(queries[0])).None?
    requires var rest := queries[1..];
      (r.None? <==> forall i :: 0 <= i < |rest| ==> Accepted(search(rest[i])).None?)
      && (r.Some? ==> exists i :: 0 <= i < |rest| && Accepted(search(rest[i])) == r && forall j :: 0 <= j < i ==> Accepted(search(rest[j])).None?)
    ensures r.None? <==> forall i :: 0 <= i < |queries| ==> Accepted(search(queries[i])).None?
    ensures r.Some? ==>
      exists i :: 0 <= i < |queries| && Accepted(search(queries[i])) == r && forall j :: 0 <= j < i ==> Accepted(search(queries[j])).None?
  {
    var rest := queries[1..];
    assert forall i :: 1 <= i < |queries| ==> rest[i - 1] == queries[i];
    if r.Some? {
      var i :| 0 <= i < |rest| && Accepted(search(rest[i])) == r && forall j :: 0 <= j < i ==> Accepted(search(rest[j])).None?;
      assert Accepted(search(queries[i + 1])) == r;
    }
  }

  /** `geocode_station(name)`: the queries in turn, the first accepted position returned. */
  method GeocodeStation(name: string, search: string -> Answer) returns (r: Option<(real, real)>)
    ensures r == FirstAccepted(Queries(name), search)
  {
    var queries := Queries(name);
    for k := 0 to |queries|
      invariant FirstAccepted(queries, search) == FirstAccepted(queries[k..], search)
    {
      assert queries[k..][1..] == queries[k + 1..];
      var pos := Accepted(search(queries[k]));
      if pos.Some? {
        return pos;
      }
    }
    return None;
  }

  // ---------------------------------------------------------------------
  // The lookup loop

  datatype Progress = Progress(stations: seq<Row>, fixed: nat, notFound: nat)

  /** The position the lookup finds for a target row: `geocode_station` on its name. */
  function Finder(search: string -> Answer): Row -> Option<(real, real)> {
    t => FirstAccepted(Queries(NameOf(t)), search)
  }

  /** One pass of the loop: a found position is written into every row with the target's
      code and counted as fixed; otherwise the target is counted as not found. */
  function Advance(p: Progress, code: string, found: Option<(real, real)>, show: real -> string): Progress {
    if found.Some? then Progress(SetAll(p.stations, code, show(found.value.0), show(found.value.1)), p.fixed + 1, p.notFound)
    else p.(notFound := p.notFound + 1)
  }

  /** The rows and the two counters after the loop over `targets`, where `find` gives the
      position looked up for a target. */
  function Geocoded(stations: seq<Row>, targets: seq<Row>, find: Row -> Option<(real, real)>, show: real -> string): (p: Progress)
    ensures p.fixed + p.notFound == |targets|
    ensures |p.stations| == |stations|
  {
    if targets == [] then Progress(stations, 0, 0)
    else
      var t := targets[|targets| - 1];
      Advance(Geocoded(stations, targets[..|targets| - 1], find, show), CodeOf(t), find(t), show)
  }

  /** One more target, as the loop takes it. */
  lemma GeocodedStep(stations: seq<Row>, targets: seq<Row>, i: int, find: Row -> Option<(real, real)>, show: real -> string)
    requires 0 <= i < |targets|
    ensures Geocoded(stations, targets[..i + 1], find, show) ==
      Advance(Geocoded(stations, targets[..i], find, show), CodeOf(targets[i]), find(targets[i]), show)
  {
    assert targets[..i + 1][..i] == targets[..i];
  }

  function Located(find: Row -> Option<(real, real)>): Row -> bool {
    t => find(t).Some?
  }

  /** The fixed counter counts the targets a position was found for. */
  lemma {:induction false} GeocodedCounts(stations: seq<Row>, targets: seq<Row>, find: Row -> Option<(real, real)>, show: real -> string)
    ensures Geocoded(stations, targets, find, show).fixed == |Filter(targets, Located(find))|
  {
    if targets != [] {
      var init := targets[..|targets| - 1];
      GeocodedCounts(stations, init, find, show);
      assert targets == init + [targets[|targets| - 1]];
      FilterSnoc(init, targets[|targets| - 1], Located(find));
    }
  }

  /** Every row keeps its fields other than its position, and a row whose code no located
      target has keeps its position too. */
  lemma {:induction false} GeocodedKeeps(stations: seq<Row>, targets: seq<Row>, find: Row -> Option<(real, real)>, show: real -> string)
    ensures forall i :: 0 <= i < |stations| ==> SameStation(stations[i], Geocoded(stations, targets, find, show).stations[i])
    ensures forall i :: 0 <= i < |stations| && (forall t :: t in targets && find(t).Some? ==> !HasCode(stations[i], CodeOf(t))) ==>
      Geocoded(stations, targets, find, show).stations[i] == stations[i]
  {
    if targets != [] {
      var init := targets[..|targets| - 1];
      var t := targets[|targets| - 1];
      GeocodedKeeps(stations, init, find, show);
      assert forall x :: x in init ==> x in targets;
      if find(t).Some? {
        UpdatesKeepStations(Geocoded(stations, init, find, show).stations, CodeOf(t), show(find(t).value.0), show(find(t).value.1));
      }
    }
  }

  /** One more target, with the position the search found for it. */
  lemma GeocodeOne(stations: seq<Row>, targets: seq<Row>, i: int, search: string -> Answer, show: real -> string, coords: Option<(real, real)>)
    requires 0 <= i < |targets| && coords == FirstAccepted(Queries(NameOf(targets[i])), search)
    ensures Geocoded(stations, targets[..i + 1], Finder(search), show) ==
      Advance(Geocoded(stations, targets[..i], Finder(search), show), CodeOf(targets[i]), coords, show)
  {
    GeocodedStep(stations, targets, i, Finder(search), show);
  }

  /** The loop body for one target: look its position up, and on success write it into every
      row with its code. */
  method GeocodeTarget(p: Progress, station: Row, search: string -> Answer, show: real -> string) returns (next: Progress)
    ensures next == Advance(p, CodeOf(station), FirstAccepted(Queries(NameOf(station)), search), show)
  {
    var code := CodeOf(station);
    var coords := GeocodeStation(NameOf(station), search);
    if coords.Some? {
      var rows, updated := UpdateAll(p.stations, code, show(coords.value.0), show(coords.value.1));
      next := Progress(rows, p.fixed + 1, p.notFound);
    } else {
      next := p.(notFound := p.notFound + 1);
    }
  }

  /** The loop over `to_geocode`. */
  method GeocodeAll(stations: seq<Row>, targets: seq<Row>, search: string -> Answer, show: real -> string) returns (p: Progress)
    ensures p == Geocoded(stations, targets, Finder(search), show)
  {
    p := Progress(stations, 0, 0);
    for i := 0 to |targets|
      invariant p == Geocoded(stations, targets[..i], Finder(search), show)
    {
      GeocodeOne(stations, targets, i, search, show, FirstAccepted(Queries(NameOf(targets[i])), search));
      p := GeocodeTarget(p, targets[i], search, show);
    }
    assert targets[..|targets|] == targets;
  }

  // ---------------------------------------------------------------------
  // The script

  /** How the script ends. */
  datatype Outcome =
    | NoFile
    | NothingToFix
    | Stopped(why: Stop)
    | Declined
    | Finished(fixed: nat, notFound: nat)
      /** `csv.DictWriter` raised `ValueError` on a row with a field outside the field names,
          after writing the header and the rows before it; the script ends there. */
    | WriteFailed(fixed: nat, notFound: nat)

  /** The file store after the rows were written back: the backup is made only when there is
      none yet. */
  function Saved(files: map<string, string>, fieldnames: seq<string>, rows: seq<Row>): map<string, string>
    requires CsvPath in files
  {
    var backed := if BackupPath in files then files else files[BackupPath := files[CsvPath]];
    backed[CsvPath := DictText(fieldnames, rows).text]
  }

  /** The end of the script once the loop ran: the counters, and the rows written back only
      when a position was found; a failing writer ends the script. */
  function Finish(files: map<string, string>, fieldnames: seq<string>, p: Progress): (r: (Outcome, map<string, string>))
    requires CsvPath in files
    ensures r.0.Finished? || r.0.WriteFailed?
  {
    if p.fixed == 0 then (Finished(p.fixed, p.notFound), files)
    else if DictText(fieldnames, p.stations).failed then (WriteFailed(p.fixed, p.notFound), Saved(files, fieldnames, p.stations))
    else (Finished(p.fixed, p.notFound), Saved(files, fieldnames, p.stations))
  }

  /** The whole script: how it ends and the file store it leaves. `stations` and `fieldnames`
      are what `read_stations_csv` reads from the file; `choice`, `entered` and `answer` are what
      the operator types. */
  function Script(files: map<string, string>, fieldnames: seq<string>, stations: seq<Row>,
                  choice: string, entered: string, answer: string,
                  search: string -> Answer, show: real -> string): (Outcome, map<string, string>)
  {
    if CsvPath !in files then (NoFile, files)
    else
      var invalid := Unique(stations, HasInvalidCoords);
      if invalid == [] then (NothingToFix, files)
      else
        match Select(invalid, choice, entered)
        case Err(why) => (Stopped(why), files)
        case Ok(targets) =>
          if Lower(answer) != "y" then (Declined, files)
          else Finish(files, fieldnames, Geocoded(stations, targets, Finder(search), show))
  }

  /** The file is rewritten only when a position was found; the first backup is never
      overwritten, and a new one holds the file as it was; no other file changes. The writer
      fails exactly when some row has a field outside the field names. */
  lemma FinishWrites(files: map<string, string>, fieldnames: seq<string>, p: Progress)
    requires CsvPath in files
    ensures var (outcome, after) := Finish(files, fieldnames, p);
      (after != files ==> p.fixed > 0)
      && (outcome.WriteFailed? <==> p.fixed > 0 && exists i :: 0 <= i < |p.stations| && !FieldsAmong(fieldnames, p.stations[i]))
      && (p.fixed > 0 ==> CsvPath in after && after[CsvPath] == DictText(fieldnames, p.stations).text)
      && (BackupPath in files ==> BackupPath in after && after[BackupPath] == files[BackupPath])
      && (BackupPath !in files && p.fixed > 0 ==> BackupPath in after && after[BackupPath] == files[CsvPath])
      && forall f :: f in files && f != CsvPath && f != BackupPath ==> f in after && after[f] == files[f]
  {
  }

  /** Before the loop runs, the script leaves the files as they are. */
  lemma ScriptWritesAtEnd(files: map<string, string>, fieldnames: seq<string>, stations: seq<Row>,
                          choice: string, entered: string, answer: string,
                          search: string -> Answer, show: real -> string)
    ensures var (outcome, after) := Script(files, fieldnames, stations, choice, entered, answer, search, show);
      !outcome.Finished? && !outcome.WriteFailed? ==> after == files
  {
  }

  /** `main()` on the file store. */
  method GeocodeStations(fs: Files, fieldnames: seq<string>, stations: seq<Row>,
                         choice: string, entered: string, answer: string,
                         search: string -> Answer, show: real -> string) returns (outcome: Outcome)
    modifies fs
    ensures (outcome, fs.contents) == Script(old(fs.contents), fieldnames, stations, choice, entered, answer, search, show)
  {
    if CsvPath !in fs.contents {
      return NoFile;
    }
    var invalid := FindInvalid(stations);
    if invalid == [] {
      return NothingToFix;
    }
    var selected := Select(invalid, choice, entered);
    if selected.Err? {
      return Stopped(selected.error);
    }
    if Lower(answer) != "y" {
      return Declined;
    }
    var p := GeocodeAll(stations, selected.value, search, show);
    outcome := Save(fs, fieldnames, p);
  }

  /** The end of `main()`: the backup, the rewrite and the counters. */
  method Save(fs: Files, fieldnames: seq<string>, p: Progress) returns (outcome: Outcome)
    requires CsvPath in fs.contents
    modifies fs
    ensures (outcome, fs.contents) == Finish(old(fs.contents), fieldnames, p)
  {
    if p.fixed > 0 {
      if BackupPath !in fs.contents {
        fs.Copy(CsvPath, BackupPath);
      }
      var written := DictText(fieldnames, p.stations);
      fs.Write(CsvPath, written.text);
      if written.failed {
        return WriteFailed(p.fixed, p.notFound);
      }
    }
    outcome := Finished(p.fixed, p.notFound);
  }
}
