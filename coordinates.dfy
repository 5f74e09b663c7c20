/**
  Station coordinates as the geocoding scripts read them: Python's `float()` on the text of a
  CSV field, and the `has_invalid_coords` rule that both scripts share (a missing, zero or
  unreadable coordinate, or a position outside the box around Italy).
 */
module Coordinates {
  import opened Text
  import opened Results
  import opened Dates

  /** A Python float: a real number, `nan`, or an infinity. */
  datatype Number = Finite(value: real) | NaN | Infinite(negative: bool)

  /** The index of the first `a` or `b` in `s`, or `|s|` when there is none. */
  function FirstOf(s: string, a: char, b: char): (n: nat)
    ensures n <= |s|
    ensures forall i :: 0 <= i < n ==> s[i] != a && s[i] != b
    ensures n < |s| ==> s[n] == a || s[n] == b
  {
    if s == [] || s[0] == a || s[0] == b then 0 else 1 + FirstOf(s[1..], a, b)
  }

  /** `10 ** e` for any integer `e`. */
  function Scale(e: int): (r: real)
    ensures r > 0.0
  {
    if e >= 0 then Pow10(e) as real else 1.0 / Pow10(-e) as real
  }

  /** An exponent: an optional sign, then at least one digit. */
  function Exponent(s: string): Option<int> {
    var digits := if s != [] && (s[0] == '+' || s[0] == '-') then s[1..] else s;
    if digits != [] && AllDigits(digits) then
      var v: int := Value(digits);
      Some(if s[0] == '-' then -v else v)
    else None
  }

  /** An unsigned decimal: digits with at most one point, at least one digit, then an optional
      `e` or `E` and an exponent. */
  function Decimal(s: string): Option<real> {
    var e := FirstOf(s, 'e', 'E');
    var mantissa := s[..e];
    var d := FirstOf(mantissa, '.', '.');
    DecimalOf(mantissa[..d], if d < |mantissa| then mantissa[d + 1..] else "", if e == |s| then Some(0) else Exponent(s[e + 1..]))
  }

  /** The value of the digits `whole` and `frac` on either side of the point, times ten to the
      exponent. */
  function DecimalOf(whole: string, frac: string, exp: Option<int>): Option<real> {
    if exp.Some? && |whole| + |frac| >= 1 && AllDigits(whole + frac) then
      Some(Value(whole + frac) as real / Pow10(|frac|) as real * Scale(exp.value))
    else None
  }

  /** `float(s)`: surrounding whitespace is ignored, a sign may come first, and `inf`,
      `infinity` and `nan` are read in any letter case. `None` is the `ValueError`. */
  function ParseFloat(s: string): Option<Number> {
    var t := Strip(s);
    if t != [] && (t[0] == '+' || t[0] == '-') then Unsigned(t[1..], t[0] == '-') else Unsigned(t, false)
  }

  /** The number after the sign, negated when the sign was `-`. */
  function Unsigned(body: string, negative: bool): Option<Number> {
    var word := Lower(body);
    if word == "inf" || word == "infinity" then Some(Infinite(negative))
    else if word == "nan" then Some(NaN)
    else
      match Decimal(body)
      case None => None
      case Some(v) => Some(Finite(if negative then -v else v))
  }

  /** A plain decimal `whole.frac` reads as the number its digits denote. */
  lemma ParseFixedPoint(whole: string, frac: string)
    requires whole != [] && AllDigits(whole) && AllDigits(frac)
    ensures ParseFloat(whole + "." + frac) == Some(Finite(Value(whole + frac) as real / Pow10(|frac|) as real))
  {
    var s := whole + "." + frac;
    FixedPointStrips(whole, frac);
    assert IsDigit(s[0]);
    assert ParseFloat(s) == Unsigned(s, false);
    LowerEach(s);
    NoWord(Lower(s));
    DecimalFixedPoint(whole, frac);
  }

  /** A text that starts with a digit is none of the words `float` reads. */
  lemma NoWord(w: string)
    requires w != [] && IsDigit(w[0])
    ensures w != "inf" && w != "infinity" && w != "nan"
  {
  }

  lemma FixedPointStrips(whole: string, frac: string)
    requires whole != [] && AllDigits(whole) && AllDigits(frac)
    ensures Strip(whole + "." + frac) == whole + "." + frac
  {
    var s := whole + "." + frac;
    assert s[0] == whole[0];
    if frac == [] {
      assert s[|s| - 1] == '.';
    } else {
      assert s[|s| - 1] == frac[|frac| - 1];
    }
    StripKeeps(s);
  }

  lemma DecimalFixedPoint(whole: string, frac: string)
    requires whole != [] && AllDigits(whole) && AllDigits(frac)
    ensures Decimal(whole + "." + frac) == Some(Value(whole + frac) as real / Pow10(|frac|) as real)
  {
    var s := whole + "." + frac;
    FixedPointMarks(whole, frac);
    assert s[..|s|] == s;
    assert s[..|whole|] == whole && s[|whole| + 1..] == frac;
    assert Decimal(s) == DecimalOf(whole, frac, Some(0));
    DigitsJoin(whole, frac);
    NoExponent(whole, frac);
  }

  lemma NoExponent(whole: string, frac: string)
    requires |whole| + |frac| >= 1 && AllDigits(whole + frac)
    ensures DecimalOf(whole, frac, Some(0)) == Some(Value(whole + frac) as real / Pow10(|frac|) as real)
  {
    assert Scale(0) == 1.0;
    var x := Value(whole + frac) as real / Pow10(|frac|) as real;
    assert x * 1.0 == x;
  }

  /** `whole.frac` has no exponent mark, and its first point is the one after `whole`. */
  lemma FixedPointMarks(whole: string, frac: string)
    requires AllDigits(whole) && AllDigits(frac)
    ensures FirstOf(whole + "." + frac, 'e', 'E') == |whole + "." + frac|
    ensures FirstOf(whole + "." + frac, '.', '.') == |whole|
  {
    var s := whole + "." + frac;
    forall i | 0 <= i < |s| ensures s[i] != 'e' && s[i] != 'E' && (i < |whole| ==> s[i] != '.') {
      if i < |whole| {
        assert s[i] == whole[i];
      } else if i > |whole| {
        assert s[i] == frac[i - |whole| - 1];
      }
    }
    FirstOfAll(s, 'e', 'E');
    FirstOfAt(s, '.', '.', |whole|);
  }

  lemma DigitsJoin(whole: string, frac: string)
    requires AllDigits(whole) && AllDigits(frac)
    ensures AllDigits(whole + frac)
  {
    forall i | 0 <= i < |whole + frac| ensures IsDigit((whole + frac)[i]) {
      if i >= |whole| {
        assert (whole + frac)[i] == frac[i - |whole|];
      }
    }
  }

  lemma {:induction false} FirstOfAll(s: string, a: char, b: char)
    requires forall i :: 0 <= i < |s| ==> s[i] != a && s[i] != b
    ensures FirstOf(s, a, b) == |s|
  {
    if s != [] {
      FirstOfAll(s[1..], a, b);
    }
  }

  lemma {:induction false} FirstOfAt(s: string, a: char, b: char, n: nat)
    requires n < |s| && (s[n] == a || s[n] == b) && forall i :: 0 <= i < n ==> s[i] != a && s[i] != b
    ensures FirstOf(s, a, b) == n
  {
    if n > 0 {
      FirstOfAt(s[1..], a, b, n - 1);
    }
  }

  // ---------------------------------------------------------------------
  // `has_invalid_coords`

  /** `float(row.get(key, 0) or 0)`: a missing or empty field reads as 0. */
  function CoordOf(row: map<string, string>, key: string): Option<Number> {
    if key in row && row[key] != "" then ParseFloat(row[key]) else Some(Finite(0.0))
  }

  predicate IsZero(x: Number) {
    x == Finite(0.0)
  }

  /** `lo <= x <= hi`, which no `nan` and no infinity satisfies. */
  predicate Within(x: Number, lo: real, hi: real) {
    x.Finite? && lo <= x.value <= hi
  }

  /** The box around Italy: latitude 36 to 47, longitude 6 to 19. */
  predicate InItaly(lat: Number, lon: Number) {
    Within(lat, 36.0, 47.0) && Within(lon, 6.0, 19.0)
  }

  /** `has_invalid_coords(row)`: an unreadable coordinate, a zero one, or a position outside the box. */
  predicate HasInvalidCoords(row: map<string, string>) {
    var lat := CoordOf(row, "latitude");
    var lon := CoordOf(row, "longitude");
    if lat.None? || lon.None? then true
    else if IsZero(lat.value) || IsZero(lon.value) then true
    else !InItaly(lat.value, lon.value)
  }

  /** A row has valid coordinates exactly when both read as numbers inside the box: the zero
      test is implied by the box test. */
  lemma InvalidMeansOutside(row: map<string, string>)
    ensures !HasInvalidCoords(row) <==>
      CoordOf(row, "latitude").Some? && CoordOf(row, "longitude").Some?
      && InItaly(CoordOf(row, "latitude").value, CoordOf(row, "longitude").value)
  {
  }
}
