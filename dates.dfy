/**
  Calendar dates as the backend uses them: the `YYYY-MM-DD` folder names that
  `date.fromisoformat` accepts (the `full-date` of RFC 3339 section 5.6 with the
  day-of-month limits of section 5.7, years 1 to 9999 as Python's `date` has
  them), the day numbers `date.toordinal()` gives, the archive stamps written
  with `%Y%m%d_%H%M%S`, and the date-range rules of the statistics endpoints.
 */
module Dates {
  import opened Text
  import opened Results

  // ---------------------------------------------------------------------
  // Fixed-width decimal digits

  predicate IsDigit(c: char) {
    '0' <= c <= '9'
  }

  predicate AllDigits(s: string) {
    forall i :: 0 <= i < |s| ==> IsDigit(s[i])
  }

  function Pow10(w: nat): (r: nat)
    ensures r >= 1
  {
    if w == 0 then 1 else 10 * Pow10(w - 1)
  }

  /** The low `w` decimal digits of `n`, zero-padded on the left. */
  function Digits(n: nat, w: nat): (r: string)
    ensures |r| == w && AllDigits(r)
  {
    if w == 0 then "" else Digits(n / 10, w - 1) + [('0' as int + n % 10) as char]
  }

  /** The number a string of decimal digits denotes. */
  function Value(s: string): (r: nat)
    requires AllDigits(s)
    ensures r < Pow10(|s|)
  {
    if s == [] then 0 else Value(s[..|s| - 1]) * 10 + (s[|s| - 1] as int - '0' as int)
  }

  lemma {:induction false} ValueOfDigits(n: nat, w: nat)
    requires n < Pow10(w)
    ensures Value(Digits(n, w)) == n
  {
    if w > 0 {
      ValueOfDigits(n / 10, w - 1);
      var d := Digits(n, w);
      assert d[..w - 1] == Digits(n / 10, w - 1);
    }
  }

  lemma {:induction false} DigitsOfValue(s: string)
    requires AllDigits(s)
    ensures Digits(Value(s), |s|) == s
  {
    if s != [] {
      var init := s[..|s| - 1];
      DigitsOfValue(init);
      var v := Value(s);
      assert v / 10 == Value(init) && v % 10 == s[|s| - 1] as int - '0' as int;
      assert s == init + [s[|s| - 1]];
    }
  }

  /** For numbers of at most `w` digits, string order of the padded forms is numeric order. */
  lemma {:induction false} DigitsOrder(n: nat, m: nat, w: nat)
    requires n < Pow10(w) && m < Pow10(w)
    ensures Below(Digits(n, w), Digits(m, w)) <==> n < m
  {
    if w == 0 {
      assert n == 0 && m == 0;
    } else {
      var hn, hm := Digits(n / 10, w - 1), Digits(m / 10, w - 1);
      DigitsOrder(n / 10, m / 10, w - 1);
      BelowConcat(hn, [('0' as int + n % 10) as char], hm, [('0' as int + m % 10) as char]);
      if hn == hm {
        BelowIrreflexive(hn);
        if n / 10 != m / 10 {
          DigitsOrder(m / 10, n / 10, w - 1);
        }
      }
    }
  }

  lemma {:induction false} DigitsInjective(n: nat, m: nat, w: nat)
    requires n < Pow10(w) && m < Pow10(w) && Digits(n, w) == Digits(m, w)
    ensures n == m
  {
    ValueOfDigits(n, w);
    ValueOfDigits(m, w);
  }

  // ---------------------------------------------------------------------
  // Calendar dates

  datatype Date = Date(year: int, month: int, day: int)

  predicate IsLeapYear(y: int) {
    y % 4 == 0 && (y % 100 != 0 || y % 400 == 0)
  }

  /** Section 5.7 of RFC 3339: the last day of each month. */
  function DaysInMonth(y: int, m: int): int {
    if m == 2 then (if IsLeapYear(y) then 29 else 28)
    else if m == 4 || m == 6 || m == 9 || m == 11 then 30
    else 31
  }

  predicate ValidDate(d: Date) {
    1 <= d.year <= 9999 && 1 <= d.month <= 12 && 1 <= d.day <= DaysInMonth(d.year, d.month)
  }

  /** `d.isoformat()` */
  function DateName(d: Date): string
    requires ValidDate(d)
  {
    Digits(d.year, 4) + "-" + Digits(d.month, 2) + "-" + Digits(d.day, 2)
  }

  predicate IsFullDateShape(s: string) {
    |s| == 10 && s[4] == '-' && s[7] == '-' && AllDigits(s[..4]) && AllDigits(s[5..7]) && AllDigits(s[8..])
  }

  /** `date.fromisoformat(s)`: the date a `YYYY-MM-DD` string names, if it names one. */
  function ParseDate(s: string): (r: Option<Date>)
    ensures r.Some? ==> ValidDate(r.value)
  {
    if IsFullDateShape(s) then
      var d := Date(Value(s[..4]), Value(s[5..7]), Value(s[8..]));
      if ValidDate(d) then Some(d) else None
    else None
  }

  /** `_is_date_dir_name` */
  predicate IsDateDirName(name: string) {
    ParseDate(name).Some?
  }

  /** Formatting a date and reading it back gives the date. */
  lemma {:induction false} DateNameParses(d: Date)
    requires ValidDate(d)
    ensures ParseDate(DateName(d)) == Some(d)
  {
    var s := DateName(d);
    assert s[..4] == Digits(d.year, 4) && s[5..7] == Digits(d.month, 2) && s[8..] == Digits(d.day, 2);
    ValueOfDigits(d.year, 4);
    ValueOfDigits(d.month, 2);
    ValueOfDigits(d.day, 2);
  }

  /** Every accepted name is the canonical name of the date it denotes. */
  lemma {:induction false} ParsedDateName(s: string)
    requires ParseDate(s).Some?
    ensures DateName(ParseDate(s).value) == s
  {
    assert IsFullDateShape(s);
    var y, m, d := s[..4], s[5..7], s[8..];
    DigitsOfValue(y);
    DigitsOfValue(m);
    DigitsOfValue(d);
    assert ParseDate(s).value == Date(Value(y), Value(m), Value(d));
    ShapeParts(s);
  }

  lemma ShapeParts(s: string)
    requires IsFullDateShape(s)
    ensures s == s[..4] + "-" + s[5..7] + "-" + s[8..]
  {
    assert s == s[..4] + [s[4]] + s[5..7] + [s[7]] + s[8..];
  }

  /** Chronological order of two dates, field by field. */
  predicate Earlier(a: Date, b: Date) {
    a.year < b.year || (a.year == b.year && (a.month < b.month || (a.month == b.month && a.day < b.day)))
  }

  lemma {:induction false} DateNameOrder(a: Date, b: Date)
    requires ValidDate(a) && ValidDate(b)
    ensures Below(DateName(a), DateName(b)) <==> Earlier(a, b)
  {
    var ya, yb := Digits(a.year, 4), Digits(b.year, 4);
    var ma, mb := Digits(a.month, 2), Digits(b.month, 2);
    var da, db := Digits(a.day, 2), Digits(b.day, 2);
    assert DateName(a) == ya + "-" + (ma + "-" + da);
    assert DateName(b) == yb + "-" + (mb + "-" + db);
    SepOrder(ya, ma + "-" + da, yb, mb + "-" + db, "-");
    SepOrder(ma, da, mb, db, "-");
    FieldOrder(a.year, b.year, 4);
    FieldOrder(a.month, b.month, 2);
    FieldOrder(a.day, b.day, 2);
  }

  // ---------------------------------------------------------------------
  // Day numbers (`date.toordinal()`: 0001-01-01 is day 1)

  function DaysBeforeYear(y: int): int
    requires y >= 1
  {
    var p := y - 1;
    p * 365 + p / 4 - p / 100 + p / 400
  }

  function DaysInYear(y: int): int {
    if IsLeapYear(y) then 366 else 365
  }

  function DaysBeforeMonth(y: int, m: int): int
    requires 1 <= m <= 13
    decreases m
  {
    if m == 1 then 0 else DaysBeforeMonth(y, m - 1) + DaysInMonth(y, m - 1)
  }

  function Ordinal(d: Date): int
    requires ValidDate(d)
  {
    DaysBeforeYear(d.year) + DaysBeforeMonth(d.year, d.month) + d.day
  }

  lemma {:induction false} YearStep(y: int)
    requires y >= 1
    ensures DaysBeforeYear(y + 1) == DaysBeforeYear(y) + DaysInYear(y)
  {
    var p := y - 1;
    assert y / 4 - p / 4 == (if y % 4 == 0 then 1 else 0);
    assert y / 100 - p / 100 == (if y % 100 == 0 then 1 else 0);
    assert y / 400 - p / 400 == (if y % 400 == 0 then 1 else 0);
  }

  lemma {:induction false} MonthsGrow(y: int, m: int, n: int)
    requires 1 <= m <= n <= 13
    ensures DaysBeforeMonth(y, m) + (if m < n then DaysInMonth(y, m) else 0) <= DaysBeforeMonth(y, n)
    decreases n - m
  {
    if m < n - 1 {
      MonthsGrow(y, m + 1, n);
    }
  }

  lemma {:induction false} WholeYear(y: int)
    ensures DaysBeforeMonth(y, 13) == DaysInYear(y)
  {
  }

  lemma {:induction false} YearsGrow(y: int, z: int)
    requires 1 <= y < z
    ensures DaysBeforeYear(y) + DaysInYear(y) <= DaysBeforeYear(z)
    decreases z - y
  {
    YearStep(y);
    if y + 1 < z {
      YearsGrow(y + 1, z);
    }
  }

  /** Day numbers follow the calendar: earlier dates have smaller day numbers. */
  lemma {:induction false} OrdinalOrder(a: Date, b: Date)
    requires ValidDate(a) && ValidDate(b)
    ensures Earlier(a, b) <==> Ordinal(a) < Ordinal(b)
    ensures a == b <==> Ordinal(a) == Ordinal(b)
  {
    if Earlier(a, b) {
      OrdinalGrows(a, b);
    } else if Earlier(b, a) {
      OrdinalGrows(b, a);
    }
  }

  lemma {:induction false} OrdinalGrows(a: Date, b: Date)
    requires ValidDate(a) && ValidDate(b) && Earlier(a, b)
    ensures Ordinal(a) < Ordinal(b)
  {
    if a.year < b.year {
      MonthsGrow(a.year, a.month, 13);
      WholeYear(a.year);
      YearsGrow(a.year, b.year);
      MonthsGrow(b.year, 1, b.month);
      assert Ordinal(a) <= DaysBeforeYear(a.year) + DaysInYear(a.year);
      assert DaysBeforeYear(b.year) < Ordinal(b);
    } else if a.month < b.month {
      MonthsGrow(a.year, a.month, b.month);
    }
  }

  /** String order of date folder names is calendar order (so `sorted()` lists them oldest first). */
  lemma {:induction false} NameOrderIsDateOrder(s: string, t: string)
    requires IsDateDirName(s) && IsDateDirName(t)
    ensures Below(s, t) <==> Ordinal(ParseDate(s).value) < Ordinal(ParseDate(t).value)
  {
    ParsedDateName(s);
    ParsedDateName(t);
    DateNameOrder(ParseDate(s).value, ParseDate(t).value);
    OrdinalOrder(ParseDate(s).value, ParseDate(t).value);
  }

  // ---------------------------------------------------------------------
  // Archive stamps: `datetime.utcnow().strftime("%Y%m%d_%H%M%S")`

  datatype Instant = Instant(year: int, month: int, day: int, hour: int, minute: int, second: int)

  predicate ValidInstant(t: Instant) {
    1000 <= t.year <= 9999 && ValidDate(Date(t.year, t.month, t.day))
    && 0 <= t.hour < 24 && 0 <= t.minute < 60 && 0 <= t.second < 60
  }

  function Stamp(t: Instant): string
    requires ValidInstant(t)
  {
    Packed(t.year, t.month, t.day, 4, 2, 2) + "_" + Packed(t.hour, t.minute, t.second, 2, 2, 2)
  }

  /** Three zero-padded fields side by side (`%Y%m%d`, `%H%M%S`). */
  function Packed(x1: nat, x2: nat, x3: nat, w1: nat, w2: nat, w3: nat): (r: string)
    ensures |r| == w1 + w2 + w3
  {
    Digits(x1, w1) + Digits(x2, w2) + Digits(x3, w3)
  }

  /** Chronological order of two instants, field by field. */
  predicate InstantBefore(a: Instant, b: Instant) {
    Earlier(Date(a.year, a.month, a.day), Date(b.year, b.month, b.day))
    || (a.year == b.year && a.month == b.month && a.day == b.day
        && (a.hour < b.hour || (a.hour == b.hour && (a.minute < b.minute || (a.minute == b.minute && a.second < b.second)))))
  }

  /** Two strings whose first parts have equal length compare by the first part, then the second. */
  lemma {:induction false} PairOrder(a1: string, a2: string, b1: string, b2: string)
    requires |a1| == |b1|
    ensures Below(a1 + a2, b1 + b2) <==> Below(a1, b1) || (a1 == b1 && Below(a2, b2))
    ensures a1 + a2 == b1 + b2 <==> a1 == b1 && a2 == b2
  {
    BelowConcat(a1, a2, b1, b2);
    if a1 + a2 == b1 + b2 {
      assert a1 == (a1 + a2)[..|a1|] == (b1 + b2)[..|b1|] == b1;
      assert a2 == (a1 + a2)[|a1|..] == (b1 + b2)[|b1|..] == b2;
    }
  }

  /** Two strings that join fields of equal length with the same separator compare by the
      first field, then the second. */
  lemma {:induction false} SepOrder(a1: string, a2: string, b1: string, b2: string, sep: string)
    requires |a1| == |b1|
    ensures Below(a1 + sep + a2, b1 + sep + b2) <==> Below(a1, b1) || (a1 == b1 && Below(a2, b2))
    ensures a1 + sep + a2 == b1 + sep + b2 <==> a1 == b1 && a2 == b2
  {
    assert a1 + sep + a2 == a1 + (sep + a2) && b1 + sep + b2 == b1 + (sep + b2);
    PairOrder(a1, sep + a2, b1, sep + b2);
    BelowCommonPrefix(sep, a2, b2);
    if sep + a2 == sep + b2 {
      assert a2 == (sep + a2)[|sep|..] == (sep + b2)[|sep|..] == b2;
    }
  }

  lemma {:induction false} FieldOrder(x: nat, y: nat, w: nat)
    requires x < Pow10(w) && y < Pow10(w)
    ensures Below(Digits(x, w), Digits(y, w)) <==> x < y
    ensures Digits(x, w) == Digits(y, w) <==> x == y
  {
    DigitsOrder(x, y, w);
    if Digits(x, w) == Digits(y, w) { DigitsInjective(x, y, w); }
  }

  /** Three padded fields side by side compare like the triple of numbers. */
  lemma {:induction false} ThreeFieldsOrder(x1: nat, x2: nat, x3: nat, y1: nat, y2: nat, y3: nat, w1: nat, w2: nat, w3: nat)
    requires x1 < Pow10(w1) && y1 < Pow10(w1) && x2 < Pow10(w2) && y2 < Pow10(w2) && x3 < Pow10(w3) && y3 < Pow10(w3)
    ensures var a, b := Packed(x1, x2, x3, w1, w2, w3), Packed(y1, y2, y3, w1, w2, w3);
      && (Below(a, b) <==> x1 < y1 || (x1 == y1 && (x2 < y2 || (x2 == y2 && x3 < y3))))
      && (a == b <==> x1 == y1 && x2 == y2 && x3 == y3)
  {
    var a1, a2, a3 := Digits(x1, w1), Digits(x2, w2), Digits(x3, w3);
    var b1, b2, b3 := Digits(y1, w1), Digits(y2, w2), Digits(y3, w3);
    assert a1 + a2 + a3 == a1 + (a2 + a3) && b1 + b2 + b3 == b1 + (b2 + b3);
    PairOrder(a1, a2 + a3, b1, b2 + b3);
    PairOrder(a2, a3, b2, b3);
    FieldOrder(x1, y1, w1);
    FieldOrder(x2, y2, w2);
    FieldOrder(x3, y3, w3);
  }

  /** Stamps of two instants compare as strings exactly as the instants compare in time,
      and distinct instants have distinct stamps. */
  lemma {:induction false} StampOrder(a: Instant, b: Instant)
    requires ValidInstant(a) && ValidInstant(b)
    ensures Below(Stamp(a), Stamp(b)) <==> InstantBefore(a, b)
    ensures Stamp(a) == Stamp(b) <==> a == b
  {
    var da, db := Packed(a.year, a.month, a.day, 4, 2, 2), Packed(b.year, b.month, b.day, 4, 2, 2);
    var ta, tb := Packed(a.hour, a.minute, a.second, 2, 2, 2), Packed(b.hour, b.minute, b.second, 2, 2, 2);
    ThreeFieldsOrder(a.year, a.month, a.day, b.year, b.month, b.day, 4, 2, 2);
    ThreeFieldsOrder(a.hour, a.minute, a.second, b.hour, b.minute, b.second, 2, 2, 2);
    SepOrder(da, ta, db, tb, "_");
  }

  // ---------------------------------------------------------------------
  // Date ranges, with dates as day numbers

  const MaxRangeDays := 366

  datatype RangeError = EndBeforeStart | RangeTooLarge(days: int)

  /** `_validate_range(s, e, max_days)`: `None` when the range is accepted. */
  function ValidateRange(s: int, e: int, maxDays: int): (r: Option<RangeError>)
    ensures r == None <==> s <= e && e - s <= maxDays
    ensures r == Some(EndBeforeStart) <==> e < s
  {
    if e < s then Some(EndBeforeStart)
    else if e - s > maxDays then Some(RangeTooLarge(e - s))
    else None
  }

  datatype PrecomputeRange = PrecomputeRange(start: int, end: int, clamped: bool)

  /** The arithmetic of `_pick_precompute_range` once the oldest and newest day are known:
      the window ends at the newest day, is clamped exactly when the data spans more than
      366 days, never starts before the oldest day, and always passes `_validate_range`. */
  function ClampToMaxRange(oldest: int, newest: int): (r: PrecomputeRange)
    requires oldest <= newest
    ensures r.end == newest
    ensures r.clamped == (newest - oldest + 1 > MaxRangeDays)
    ensures r.clamped ==> r.start == newest - 365
    ensures !r.clamped ==> r.start == oldest
    ensures oldest <= r.start <= r.end
    ensures ValidateRange(r.start, r.end, MaxRangeDays) == None
  {
    var totalDays := newest - oldest + 1;
    if totalDays > MaxRangeDays then PrecomputeRange(newest - (MaxRangeDays - 1), newest, true)
    else PrecomputeRange(oldest, newest, false)
  }

  const DefaultWindowDays := 30
  /** `timedelta` refuses more than 999999999 days. */
  const MaxTimedeltaDays := 999999999
  /** `date.min.toordinal()` */
  const MinOrdinal := 1

  /** The default window of the describe endpoint (lines 1099-1102):
      `start = max(oldest, newest - (w - 1))`, `end = newest`, with `w < 1` reset to 30.
      `None` stands for the `OverflowError` Python raises when the subtraction leaves
      the range of `date` or of `timedelta`. Otherwise the window ends at the newest day,
      starts no earlier than the oldest day and covers `min(w, span)` days; it passes the
      366-day check exactly when that is at most 367. */
  function DefaultWindow(oldest: int, newest: int, w: int): (r: Option<(int, int)>)
    requires MinOrdinal <= oldest <= newest
    ensures var days := if w < 1 then 30 else w;
      && (r.None? <==> days - 1 > MaxTimedeltaDays || newest - (days - 1) < MinOrdinal)
      && (r.Some? ==>
          && r.value.1 == newest
          && oldest <= r.value.0 <= newest
          && r.value.1 - r.value.0 + 1 == (if days < newest - oldest + 1 then days else newest - oldest + 1)
          && (ValidateRange(r.value.0, r.value.1, MaxRangeDays) == None
              <==> (if days < newest - oldest + 1 then days else newest - oldest + 1) <= MaxRangeDays + 1))
  {
    var days := if w < 1 then DefaultWindowDays else w;
    if days - 1 > MaxTimedeltaDays || newest - (days - 1) < MinOrdinal then None
    else Some((if oldest > newest - (days - 1) then oldest else newest - (days - 1), newest))
  }
}
