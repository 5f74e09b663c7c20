/**
  `scripts/fix_remaining_coords.py`: a fixed table of corrected positions for eleven stations,
  applied to the rows of `webapp/data/stations.csv`, which is then written back.
 */
module FixRemainingCoords {
  import opened Results
  import opened Disk
  import opened StationCsv
  import opened Coordinates
  import opened Dates
  import opened StationRows

  const CsvPath := "webapp/data/stations.csv"

  /** The `corrections` table: station code to (latitude, longitude), as the text written back. */
  function Correction(code: string): Option<(string, string)> {
    match code
    case "S05161" => Some(("45.002778", "10.483333"))
    case "S05162" => Some(("45.036111", "10.551111"))
    case "S05164" => Some(("44.936111", "10.583333"))
    case "S05165" => Some(("44.883333", "10.616667"))
    case "S00084" => Some(("45.190556", "7.588889"))
    case "S00085" => Some(("45.191667", "7.591667"))
    case "S00086" => Some(("45.168333", "7.615000"))
    case "S00087" => Some(("45.197500", "7.649722"))
    case "S00088" => Some(("45.192500", "7.649444"))
    case "S00089" => Some(("45.165000", "7.707222"))
    case "S00090" => Some(("45.217500", "7.593889"))
    case _ => None
  }

  /** The loop body: a row whose code is in the table gets the table's latitude and longitude. */
  function Corrected(row: Row): Row {
    match Correction(CodeOf(row))
    case None => row
    case Some((lat, lon)) => Relocated(row, lat, lon)
  }

  /** A row with a correction has exactly the table's pair as its position and keeps every
      other field; a row without one is unchanged. */
  lemma CorrectedFields(row: Row)
    ensures Correction(CodeOf(row)).None? ==> Corrected(row) == row
    ensures Correction(CodeOf(row)).Some? ==>
      Corrected(row).Keys == row.Keys + {"latitude", "longitude"}
      && Corrected(row)["latitude"] == Correction(CodeOf(row)).value.0
      && Corrected(row)["longitude"] == Correction(CodeOf(row)).value.1
    ensures forall k :: k in row && k != "latitude" && k != "longitude" ==> Corrected(row)[k] == row[k]
  {
  }

  /** Correcting a corrected row changes nothing: the table's values are constants and the
      code is not among the fields it writes. */
  lemma CorrectedIdempotent(row: Row)
    ensures Corrected(Corrected(row)) == Corrected(row)
  {
    assert CodeOf(Corrected(row)) == CodeOf(row);
  }

  /** The table's positions are inside the box the geocoding scripts test, so a corrected row
      no longer counts as having invalid coordinates. */
  lemma CorrectedIsValid(row: Row)
    requires Correction(CodeOf(row)).Some?
    ensures !HasInvalidCoords(Corrected(row))
  {
    var (lat, lon) := Correction(CodeOf(row)).value;
    TableInItaly(CodeOf(row));
    var fixed := Corrected(row);
    assert fixed["latitude"] == lat && fixed["longitude"] == lon;
    assert CoordOf(fixed, "latitude") == ParseFloat(lat) && CoordOf(fixed, "longitude") == ParseFloat(lon);
  }

  /** `lat` and `lon` read as a pair of numbers inside the box. */
  ghost predicate InBox(lat: string, lon: string) {
    lat != "" && lon != "" && ParseFloat(lat).Some? && ParseFloat(lon).Some?
    && InItaly(ParseFloat(lat).value, ParseFloat(lon).value)
  }

  /** Every position in the table reads as a pair of numbers inside the box. */
  lemma TableInItaly(code: string)
    requires Correction(code).Some?
    ensures InBox(Correction(code).value.0, Correction(code).value.1)
  {
    match code
    case "S05161" => Entry05161();
    case "S05162" => Entry05162();
    case "S05164" => Entry05164();
    case "S05165" => Entry05165();
    case "S00084" => Entry00084();
    case "S00085" => Entry00085();
    case "S00086" => Entry00086();
    case "S00087" => Entry00087();
    case "S00088" => Entry00088();
    case "S00089" => Entry00089();
    case "S00090" => Entry00090();
  }

  // One lemma per table entry keeps each digit-by-digit check in a proof of its own.
  lemma Entry05161() ensures InBox("45.002778", "10.483333") { PairIn("45.002778", "10.483333", 2); }
  lemma Entry05162() ensures InBox("45.036111", "10.551111") { PairIn("45.036111", "10.551111", 2); }
  lemma Entry05164() ensures InBox("44.936111", "10.583333") { PairIn("44.936111", "10.583333", 2); }
  lemma Entry05165() ensures InBox("44.883333", "10.616667") { PairIn("44.883333", "10.616667", 2); }
  lemma Entry00084() ensures InBox("45.190556", "7.588889") { PairIn("45.190556", "7.588889", 1); }
  lemma Entry00085() ensures InBox("45.191667", "7.591667") { PairIn("45.191667", "7.591667", 1); }
  lemma Entry00086() ensures InBox("45.168333", "7.615000") { PairIn("45.168333", "7.615000", 1); }
  lemma Entry00087() ensures InBox("45.197500", "7.649722") { PairIn("45.197500", "7.649722", 1); }
  lemma Entry00088() ensures InBox("45.192500", "7.649444") { PairIn("45.192500", "7.649444", 1); }
  lemma Entry00089() ensures InBox("45.165000", "7.707222") { PairIn("45.165000", "7.707222", 1); }
  lemma Entry00090() ensures InBox("45.217500", "7.593889") { PairIn("45.217500", "7.593889", 1); }

  /** A latitude with two digits before the point and a longitude with `k` digits before it,
      both inside the box by their whole parts, read as a position inside it. */
  lemma PairIn(lat: string, lon: string, k: nat)
    requires |lat| > 2 && lat[2] == '.' && AllDigits(lat[..2]) && AllDigits(lat[3..]) && 36 <= Value(lat[..2]) < 47
    requires 0 < k < |lon| && lon[k] == '.' && AllDigits(lon[..k]) && AllDigits(lon[k + 1..]) && 6 <= Value(lon[..k]) < 19
    ensures ParseFloat(lat).Some? && ParseFloat(lon).Some? && InItaly(ParseFloat(lat).value, ParseFloat(lon).value)
  {
    PointIn(lat, 2, 36, 47);
    PointIn(lon, k, 6, 19);
  }

  /** A text with digits on both sides of a point at `k`, whose whole part lies in `[lo, hi)`,
      reads as a number within `[lo, hi]`. */
  lemma PointIn(s: string, k: nat, lo: nat, hi: nat)
    requires 0 < k < |s| && s[k] == '.' && AllDigits(s[..k]) && AllDigits(s[k + 1..]) && lo <= Value(s[..k]) < hi
    ensures ParseFloat(s).Some? && Within(ParseFloat(s).value, lo as real, hi as real)
  {
    assert s == s[..k] + "." + s[k + 1..];
    FixedPointIn(s[..k], s[k + 1..], lo, hi);
  }

  /** A fixed-point text whose whole part lies in `[lo, hi)` reads as a number within `[lo, hi]`. */
  lemma FixedPointIn(whole: string, frac: string, lo: nat, hi: nat)
    requires whole != [] && AllDigits(whole) && AllDigits(frac) && lo <= Value(whole) < hi
    ensures ParseFloat(whole + "." + frac).Some?
    ensures Within(ParseFloat(whole + "." + frac).value, lo as real, hi as real)
  {
    DigitsSplit(whole, frac);
    var p := Pow10(|frac|);
    var x := Value(whole + frac) as real / p as real;
    DivBounds(Value(whole), Value(frac), p);
    assert lo as real <= x <= hi as real;
    ParseFixedPoint(whole, frac);
  }

  /** `w` plus a fraction below one stays below `w + 1`. */
  lemma DivBounds(w: nat, f: nat, p: nat)
    requires p >= 1 && f < p
    ensures w as real <= (w * p + f) as real / p as real < (w + 1) as real
  {
    var W, F, P := w as real, f as real, p as real;
    assert (w * p + f) as real == W * P + F;
    var r := F / P;
    assert r * P == F;
    assert 0.0 <= r < 1.0;
    assert (W * P + F) / P == W + r;
  }

  /** The digits `whole + frac` denote `whole` shifted by the length of `frac`, plus `frac`. */
  lemma {:induction false} DigitsSplit(whole: string, frac: string)
    requires AllDigits(whole) && AllDigits(frac)
    ensures AllDigits(whole + frac)
    ensures Value(whole + frac) == Value(whole) * Pow10(|frac|) + Value(frac)
  {
    DigitsJoin(whole, frac);
    if frac == [] {
      assert whole + frac == whole;
    } else {
      var init := frac[..|frac| - 1];
      DigitsSplit(whole, init);
      LastDigit(whole, frac);
      Shift(Value(whole), Pow10(|init|), Value(init), frac[|frac| - 1] as int - '0' as int);
    }
  }

  lemma LastDigit(whole: string, frac: string)
    requires AllDigits(whole + frac) && AllDigits(frac) && frac != []
    ensures AllDigits(whole + frac[..|frac| - 1])
    ensures Value(whole + frac) == Value(whole + frac[..|frac| - 1]) * 10 + (frac[|frac| - 1] as int - '0' as int)
  {
    assert (whole + frac)[..|whole + frac| - 1] == whole + frac[..|frac| - 1];
  }

  lemma Shift(w: int, p: int, f: int, d: int)
    ensures (w * p + f) * 10 + d == w * (10 * p) + (f * 10 + d)
  {
  }

  // The script

  function CorrectAll(rows: seq<Row>): seq<Row> {
    seq(|rows|, i requires 0 <= i < |rows| => Corrected(rows[i]))
  }

  /** The rewrite keeps the number and the order of the rows, and running the script on its
      own output changes nothing more. */
  lemma CorrectAllKeepsRows(rows: seq<Row>)
    ensures |CorrectAll(rows)| == |rows|
    ensures forall i :: 0 <= i < |rows| ==> CodeOf(CorrectAll(rows)[i]) == CodeOf(rows[i])
    ensures CorrectAll(CorrectAll(rows)) == CorrectAll(rows)
  {
    forall i | 0 <= i < |rows| ensures Corrected(Corrected(rows[i])) == Corrected(rows[i]) {
      CorrectedIdempotent(rows[i]);
    }
  }

  /** The loop over the rows `csv.DictReader` read. */
  method ApplyCorrections(rows: seq<Row>) returns (out: seq<Row>)
    ensures out == CorrectAll(rows)
  {
    out := [];
    for i := 0 to |rows|
      invariant |out| == i && forall j :: 0 <= j < i ==> out[j] == Corrected(rows[j])
    {
      var row := rows[i];
      var code := if "code" in row then row["code"] else "";
      var fix := Correction(code);
      if fix.Some? {
        row := row["latitude" := fix.value.0]["longitude" := fix.value.1];
      }
      out := out + [row];
    }
    assert out == CorrectAll(rows);
  }

  /** The script, given the field names and rows `csv.DictReader` reads from the file: the rows
      are corrected and written back, header first, in the same order. */
  method FixRemainingCoords(fs: Files, fieldnames: seq<string>, rows: seq<Row>) returns (r: Option<Written>)
    modifies fs
    ensures CsvPath !in old(fs.contents) ==> r.None? && fs.contents == old(fs.contents)
    ensures CsvPath in old(fs.contents) ==>
      r == Some(DictText(fieldnames, CorrectAll(rows))) && fs.contents == old(fs.contents)[CsvPath := r.value.text]
  {
    if CsvPath !in fs.contents {
      return None;
    }
    var fixed := ApplyCorrections(rows);
    var written := DictText(fieldnames, fixed);
    fs.Write(CsvPath, written.text);
    r := Some(written);
  }
}
