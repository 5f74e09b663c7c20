/**
  Station rows as `csv.DictReader` yields them, and the two ways the coordinate scripts write a
  new position into the rows of one station: into every row with its code, or into the first.
 */
module StationRows {
  import opened Results
  import opened StationCsv

  /** `row.get('code', '')` */
  function CodeOf(row: Row): string {
    if "code" in row then row["code"] else ""
  }

  /** `row.get('code')`: `None` for a row without a code. */
  function GetCode(row: Row): Option<string> {
    if "code" in row then Some(row["code"]) else None
  }

  /** `row.get('long_name', row.get('name', 'Unknown'))` */
  function NameOf(row: Row): string {
    if "long_name" in row then row["long_name"] else if "name" in row then row["name"] else "Unknown"
  }

  /** `s.get('code') == code`: a row without a code matches no code. */
  predicate HasCode(row: Row, code: string) {
    GetCode(row) == Some(code)
  }

  /** `row['latitude'] = lat; row['longitude'] = lon` */
  function Relocated(row: Row, lat: string, lon: string): (r: Row)
    ensures r.Keys == row.Keys + {"latitude", "longitude"}
    ensures r["latitude"] == lat && r["longitude"] == lon
    ensures forall k :: k in row && k != "latitude" && k != "longitude" ==> r[k] == row[k]
  {
    row["latitude" := lat]["longitude" := lon]
  }

  /** `b` is `a` with at most its position rewritten: every other field, the code among them,
      is still there with the same value. */
  ghost predicate SameStation(a: Row, b: Row) {
    forall k :: k in a && k != "latitude" && k != "longitude" ==> k in b && b[k] == a[k]
  }

  // ---------------------------------------------------------------------
  // Every row with the code

  /** One row as the loop leaves it: relocated when it has the code, as it was otherwise. */
  function Visit(row: Row, code: string, lat: string, lon: string): Row {
    if HasCode(row, code) then Relocated(row, lat, lon) else row
  }

  /** The rows after `for s in stations: if s.get('code') == code: ...` without a `break`. */
  function SetAll(rows: seq<Row>, code: string, lat: string, lon: string): (r: seq<Row>)
    ensures |r| == |rows|
    ensures forall i :: 0 <= i < |rows| ==> r[i] == Visit(rows[i], code, lat, lon)
  {
    if rows == [] then [] else [Visit(rows[0], code, lat, lon)] + SetAll(rows[1..], code, lat, lon)
  }

  /** The number of rows with the code. */
  function CountCode(rows: seq<Row>, code: string): nat {
    if rows == [] then 0
    else CountCode(rows[..|rows| - 1], code) + if HasCode(rows[|rows| - 1], code) then 1 else 0
  }

  /** The count is at most the number of rows, and zero exactly when no row has the code. */
  lemma {:induction false} CountCodeBounds(rows: seq<Row>, code: string)
    ensures CountCode(rows, code) <= |rows|
    ensures CountCode(rows, code) == 0 <==> forall i :: 0 <= i < |rows| ==> !HasCode(rows[i], code)
  {
    if rows != [] {
      var init := rows[..|rows| - 1];
      CountCodeBounds(init, code);
      assert forall i :: 0 <= i < |init| ==> init[i] == rows[i];
    }
  }

  /** The update loop of `geocode_stations.py`: every row with the code gets the position, and
      the number of rows it wrote is counted. */
  method UpdateAll(rows: seq<Row>, code: string, lat: string, lon: string) returns (out: seq<Row>, updated: nat)
    ensures out == SetAll(rows, code, lat, lon)
    ensures updated == CountCode(rows, code)
  {
    out := [];
    updated := 0;
    for i := 0 to |rows|
      invariant |out| == i
      invariant forall j :: 0 <= j < i ==> out[j] == Visit(rows[j], code, lat, lon)
      invariant updated == CountCode(rows[..i], code)
    {
      assert rows[..i + 1][..i] == rows[..i];
      var s := rows[i];
      if GetCode(s) == Some(code) {
        s := Relocated(s, lat, lon);
        updated := updated + 1;
      }
      out := out + [s];
    }
    assert rows[..|rows|] == rows;
    assert out == SetAll(rows, code, lat, lon);
  }

  // ---------------------------------------------------------------------
  // The first row with the code

  /** Row `i` is the first with the code. */
  predicate IsFirst(rows: seq<Row>, code: string, i: int) {
    0 <= i < |rows| && HasCode(rows[i], code) && forall j :: 0 <= j < i ==> !HasCode(rows[j], code)
  }

  /** The rows after the same loop ended by `break` at the first row with the code. */
  function SetFirst(rows: seq<Row>, code: string, lat: string, lon: string): (r: seq<Row>)
    ensures |r| == |rows|
    ensures forall i :: 0 <= i < |rows| ==> r[i] == if IsFirst(rows, code, i) then Relocated(rows[i], lat, lon) else rows[i]
  {
    if rows == [] then []
    else if HasCode(rows[0], code) then [Relocated(rows[0], lat, lon)] + rows[1..]
    else
      var r := [rows[0]] + SetFirst(rows[1..], code, lat, lon);
      assert forall i :: 1 <= i < |rows| ==> (IsFirst(rows, code, i) <==> IsFirst(rows[1..], code, i - 1));
      r
  }

  /** The update loop of `fix_zero_coordinates.py`, which stops at the first row with the code. */
  method UpdateFirst(rows: seq<Row>, code: string, lat: string, lon: string) returns (out: seq<Row>)
    ensures out == SetFirst(rows, code, lat, lon)
  {
    out := rows;
    for i := 0 to |rows|
      invariant out == rows
      invariant forall j :: 0 <= j < i ==> !HasCode(rows[j], code)
    {
      if GetCode(rows[i]) == Some(code) {
        out := rows[i := Relocated(rows[i], lat, lon)];
        assert IsFirst(rows, code, i);
        return;
      }
    }
  }

  /** Both loops keep every row's other fields, its code among them. */
  lemma UpdatesKeepStations(rows: seq<Row>, code: string, lat: string, lon: string)
    ensures forall i :: 0 <= i < |rows| ==> SameStation(rows[i], SetAll(rows, code, lat, lon)[i])
    ensures forall i :: 0 <= i < |rows| ==> SameStation(rows[i], SetFirst(rows, code, lat, lon)[i])
  {
  }
}
