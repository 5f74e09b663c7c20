/**
  The station helpers of the backend: the comma-separated filter lists of the
  statistics endpoints (`_parse_csv_list`), the index built from `stations.csv`
  (`_load_stations_index`), the free-text station search (`_resolve_station_codes`)
  and the feature filter of the stations endpoint (`_filter_and_limit`).
 */
module StationIndex {
  import opened Text
  import opened Results
  import opened Dates
  import opened Seqs

  // ---------------------------------------------------------------------
  // `_parse_csv_list`

  /** Non-empty, and neither starting nor ending with whitespace: what `strip()` leaves of a
      string that is not blank. */
  predicate Trimmed(x: string) {
    x != "" && !IsSpace(x[0]) && !IsSpace(x[|x| - 1])
  }

  /** The stripped pieces that are not empty, in order. */
  function StrippedNonEmpty(pieces: seq<string>): (r: seq<string>)
    ensures |r| <= |pieces|
    ensures forall i :: 0 <= i < |r| ==> Trimmed(r[i])
  {
    if pieces == [] then []
    else
      var s := Strip(pieces[0]);
      var rest := StrippedNonEmpty(pieces[1..]);
      if s == "" then rest else [s] + rest
  }

  /** `_parse_csv_list(value)`: `None` and `""` give the empty list. */
  function ParseCsvList(value: Option<string>): seq<string> {
    if value.None? || value.value == "" then []
    else StrippedNonEmpty(Split(value.value, ','))
  }

  lemma {:induction false} StrippedNonEmptyLacks(pieces: seq<string>, x: char)
    requires NoneContains(pieces, x)
    ensures forall i :: 0 <= i < |StrippedNonEmpty(pieces)| ==> x !in StrippedNonEmpty(pieces)[i]
  {
    if pieces != [] {
      assert NoneContains(pieces[1..], x) by {
        forall i, j | 0 <= i < |pieces| - 1 && 0 <= j < |pieces[1..][i]| ensures pieces[1..][i][j] != x {
          assert pieces[1..][i] == pieces[i + 1];
        }
      }
      StrippedNonEmptyLacks(pieces[1..], x);
      var s := Strip(pieces[0]);
      var k :| InfixAt(pieces[0], s, k);
      assert x !in s by {
        forall j | 0 <= j < |s| ensures s[j] != x {
          assert s[j] == pieces[0][k + j];
        }
      }
    }
  }

  /** Every item of a parsed list is non-empty, carries no surrounding whitespace and no comma. */
  lemma ParseCsvListClean(value: Option<string>)
    ensures forall i :: 0 <= i < |ParseCsvList(value)| ==>
      var item := ParseCsvList(value)[i];
      Trimmed(item) && Strip(item) == item && ',' !in item
  {
    var r := ParseCsvList(value);
    if value.Some? && value.value != "" {
      SplitPiecesAvoidSep(value.value, ',');
      StrippedNonEmptyLacks(Split(value.value, ','), ',');
    }
    forall i | 0 <= i < |r| ensures Strip(r[i]) == r[i] {
      StripKeeps(r[i]);
    }
  }

  lemma {:induction false} StrippedNonEmptyKeepsClean(items: seq<string>)
    requires forall i :: 0 <= i < |items| ==> Trimmed(items[i])
    ensures StrippedNonEmpty(items) == items
  {
    if items != [] {
      StripKeeps(items[0]);
      StrippedNonEmptyKeepsClean(items[1..]);
    }
  }

  /** Joining clean items with commas and parsing the result gives the items back. */
  lemma ParseCsvListJoin(items: seq<string>)
    requires forall i :: 0 <= i < |items| ==> Trimmed(items[i]) && ',' !in items[i]
    ensures ParseCsvList(Some(Join(items, ","))) == items
  {
    if items != [] {
      assert NoneContains(items, ',') by {
        forall i, j | 0 <= i < |items| && 0 <= j < |items[i]| ensures items[i][j] != ',' {
          assert items[i][j] in items[i];
        }
      }
      SplitJoin(items, ',');
      assert Join(items, ",") != "" by {
        if |items| == 1 {
          assert Join(items, ",") == items[0];
        } else {
          assert Join(items, ",") == items[0] + "," + Join(items[1..], ",");
        }
      }
      StrippedNonEmptyKeepsClean(items);
    }
  }

  // ---------------------------------------------------------------------
  // Station rows

  /** A row of `csv.DictReader`: a header name maps to the row's value; a short row lacks
      the names it has no value for. */
  type Row = map<string, string>

  /** `keys[i]` is the first of `keys` with a non-empty value in `row`. */
  predicate FirstSetAt(row: Row, keys: seq<string>, i: int) {
    0 <= i < |keys| && keys[i] in row && row[keys[i]] != ""
    && forall j :: 0 <= j < i ==> keys[j] !in row || row[keys[j]] == ""
  }

  /** `row.get(k1) or row.get(k2) or ... or ""`: the first non-empty value among `keys`. */
  function FirstSet(row: Row, keys: seq<string>): (r: string)
    ensures r == "" <==> forall i :: 0 <= i < |keys| ==> keys[i] !in row || row[keys[i]] == ""
    ensures r != "" ==> exists i :: FirstSetAt(row, keys, i) && row[keys[i]] == r
  {
    if keys == [] then ""
    else if keys[0] in row && row[keys[0]] != "" then row[keys[0]]
    else
      var r := FirstSet(row, keys[1..]);
      assert forall i :: 1 <= i < |keys| ==> keys[i] == keys[1..][i - 1];
      r
  }

  /** The texts `int()` reads once stripped: decimal digits after an optional sign. */
  predicate IntSyntax(s: string) {
    (s != [] && AllDigits(s)) || (|s| > 1 && (s[0] == '+' || s[0] == '-') && AllDigits(s[1..]))
  }

  /** Python's `int(s)` on an already stripped string: an optional sign and decimal digits;
      any other text is the `ValueError` the caller catches. */
  function ParseInt(s: string): (r: Option<int>)
    ensures r.Some? <==> IntSyntax(s)
    ensures r.Some? ==> (r.value < 0 ==> s[0] == '-')
    ensures s != [] && AllDigits(s) ==> r == Some(Value(s))
    ensures r.Some? && s[0] == '-' ==> r.value == -(Value(s[1..]) as int)
    ensures r.Some? && s[0] == '+' ==> r.value == Value(s[1..])
  {
    if s != [] && (s[0] == '+' || s[0] == '-') then
      if |s| > 1 && AllDigits(s[1..]) then
        var v: int := Value(s[1..]);
        Some(if s[0] == '-' then -v else v)
      else None
    else if s != [] && AllDigits(s) then Some(Value(s))
    else None
  }

  /** Zero-padded decimal numerals parse back to their number. */
  lemma ParseIntDigits(n: nat, w: nat)
    requires n < Pow10(w) && w > 0
    ensures ParseInt(Digits(n, w)) == Some(n)
  {
    ValueOfDigits(n, w);
  }

  /** `REGION_CODE_TO_NAME.get(code)` */
  function RegionName(code: int): Option<string> {
    match code
    case 1 => Some("Lombardia")
    case 2 => Some("Liguria")
    case 3 => Some("Piemonte")
    case 4 => Some("Valle d'Aosta")
    case 5 => Some("Trentino-Alto Adige")
    case 6 => Some("Veneto")
    case 7 => Some("Friuli Venezia Giulia")
    case 8 => Some("Emilia-Romagna")
    case 9 => Some("Toscana")
    case 10 => Some("Umbria")
    case 11 => Some("Marche")
    case 12 => Some("Lazio")
    case 13 => Some("Abruzzo")
    case 14 => Some("Molise")
    case 15 => Some("Campania")
    case 16 => Some("Puglia")
    case 17 => Some("Basilicata")
    case 18 => Some("Calabria")
    case 19 => Some("Sicilia")
    case 20 => Some("Sardegna")
    case _ => None
  }

  datatype StationMeta = StationMeta(name: string, shortName: string, regionCode: Option<int>, regionName: Option<string>)

  function CodeOf(row: Row): string {
    Strip(FirstSet(row, ["code"]))
  }

  predicate HasCode(row: Row) {
    CodeOf(row) != ""
  }

  /** The `region` column as a number; a blank or non-numeric value gives `None`. */
  function RegionCodeOf(row: Row): (r: Option<int>)
    ensures Strip(FirstSet(row, ["region"])) == "" ==> r == None
    ensures var raw := Strip(FirstSet(row, ["region"])); raw != "" ==> r == ParseInt(raw)
  {
    var raw := Strip(FirstSet(row, ["region"]));
    if raw == "" then None else ParseInt(raw)
  }

  /** The region name of a row: a code of the table has one, a missing or zero code none. */
  function RegionNameOf(row: Row): Option<string> {
    var code := RegionCodeOf(row);
    if code.Some? && code.value != 0 then RegionName(code.value) else None
  }

  /** The entry a row contributes to `by_code` (used only for rows with a code). */
  function MetaOf(row: Row): (m: StationMeta)
    ensures HasCode(row) ==> m.name != ""
    ensures m.regionCode == RegionCodeOf(row) && m.regionName == RegionNameOf(row)
    ensures m.shortName == Strip(FirstSet(row, ["short_name", "shortName"]))
  {
    var longName := Strip(FirstSet(row, ["long_name", "longName", "name"]));
    var shortName := Strip(FirstSet(row, ["short_name", "shortName"]));
    var name := if longName != "" then longName else if shortName != "" then shortName else CodeOf(row);
    StationMeta(name, shortName, RegionCodeOf(row), RegionNameOf(row))
  }

  /** The `codes_by_region_name` key a row with a code is filed under, if its region has a name. */
  function RegionKeyOf(row: Row): (r: Option<string>)
    ensures r.Some? ==> HasCode(row)
  {
    var n := RegionNameOf(row);
    if HasCode(row) && n.Some? && n.value != "" then Some(Lower(Strip(n.value))) else None
  }

  datatype Index = Index(byCode: map<string, StationMeta>, byRegion: map<string, set<string>>)

  /** `by_code` after the rows: a later row with the same code replaces an earlier one. */
  function ByCode(rows: seq<Row>): map<string, StationMeta> {
    LastWins(rows, HasCode, CodeOf, MetaOf)
  }

  /** `codes_by_region_name` after the rows: each row adds its code to its region's set. */
  function ByRegion(rows: seq<Row>): map<string, set<string>> {
    Collect(rows, RegionKeyOf, CodeOf)
  }

  /** `_load_stations_index`; `None` stands for a missing `stations.csv`. */
  method LoadStationsIndex(file: Option<seq<Row>>) returns (idx: Index)
    ensures file.None? ==> idx == Index(map[], map[])
    ensures file.Some? ==> idx == Index(ByCode(file.value), ByRegion(file.value))
  {
    if file.None? {
      return Index(map[], map[]);
    }
    var rows := file.value;
    var byCode: map<string, StationMeta> := map[];
    var byRegion: map<string, set<string>> := map[];
    for i := 0 to |rows|
      invariant byCode == ByCode(rows[..i])
      invariant byRegion == ByRegion(rows[..i])
    {
      LastWinsStep(rows, i, HasCode, CodeOf, MetaOf);
      CollectStep(rows, i, RegionKeyOf, CodeOf);
      var row := rows[i];
      var code := CodeOf(row);
      if code == "" {
        continue;
      }
      byCode := byCode[code := MetaOf(row)];
      var key := RegionKeyOf(row);
      if key.Some? {
        var codes := if key.value in byRegion then byRegion[key.value] else {};
        byRegion := byRegion[key.value := codes + {code}];
      }
    }
    assert rows[..|rows|] == rows;
    idx := Index(byCode, byRegion);
  }

  /** Every code of a row is indexed, and indexed with the metadata of its last row. */
  lemma ByCodeLastRowWins(rows: seq<Row>, code: string)
    ensures code in ByCode(rows) <==> code != "" && exists j :: 0 <= j < |rows| && CodeOf(rows[j]) == code
    ensures code in ByCode(rows) ==>
      exists j :: LastFor(rows, HasCode, CodeOf, j, code) && ByCode(rows)[code] == MetaOf(rows[j])
  {
    LastWinsSpec(rows, HasCode, CodeOf, MetaOf, code);
  }

  /** A code is listed under a region key exactly when some row with that code names that
      region, even when a later row for the same code names another region. */
  lemma ByRegionCollectsRows(rows: seq<Row>, key: string, code: string)
    ensures key in ByRegion(rows) <==> exists j :: 0 <= j < |rows| && RegionKeyOf(rows[j]) == Some(key)
    ensures key in ByRegion(rows) ==>
      (code in ByRegion(rows)[key] <==> exists j :: 0 <= j < |rows| && CodeOf(rows[j]) == code && RegionKeyOf(rows[j]) == Some(key))
  {
    CollectSpec(rows, RegionKeyOf, CodeOf, key, code);
  }

  /** Every code filed under a region is a code of the index. */
  lemma RegionCodesAreIndexed(rows: seq<Row>, key: string, code: string)
    requires key in ByRegion(rows) && code in ByRegion(rows)[key]
    ensures code in ByCode(rows)
  {
    ByRegionCollectsRows(rows, key, code);
    ByCodeLastRowWins(rows, code);
  }

  // ---------------------------------------------------------------------
  // `_resolve_station_codes`

  /** The text a query is searched in: code, name and short name, lowered. */
  function Haystack(code: string, meta: StationMeta): string {
    Lower(code + " " + meta.name + " " + meta.shortName)
  }

  function Needle(query: Option<string>): string {
    Lower(Strip(if query.Some? then query.value else ""))
  }

  /** `_resolve_station_codes(query, index)` */
  method ResolveStationCodes(query: Option<string>, byCode: map<string, StationMeta>) returns (matches: set<string>)
    ensures forall c :: c in matches <==> c in byCode && Needle(query) != "" && Contains(Haystack(c, byCode[c]), Needle(query))
  {
    var needle := Needle(query);
    matches := {};
    if needle == "" {
      return;
    }
    var todo := byCode.Keys;
    while todo != {}
      invariant todo <= byCode.Keys
      invariant forall c :: c in matches <==> c in byCode && c !in todo && Contains(Haystack(c, byCode[c]), needle)
      decreases todo
    {
      var code :| code in todo;
      if Contains(Haystack(code, byCode[code]), needle) {
        matches := matches + {code};
      }
      todo := todo - {code};
    }
  }

  lemma {:induction false} ContainsTransitive(hay: string, mid: string, needle: string)
    requires Contains(hay, mid) && Contains(mid, needle)
    ensures Contains(hay, needle)
  {
    ContainsMeansInfix(hay, mid);
    ContainsMeansInfix(mid, needle);
    var k :| InfixAt(hay, mid, k);
    var m :| InfixAt(mid, needle, m);
    assert hay[k + m..k + m + |needle|] == needle by {
      forall j | 0 <= j < |needle| ensures hay[k + m + j] == needle[j] {
        assert hay[k + m + j] == hay[k..k + |mid|][m + j] == mid[m + j] == mid[m..m + |needle|][j];
      }
    }
    assert InfixAt(hay, needle, k + m);
    ContainsMeansInfix(hay, needle);
  }

  lemma Regroup(code: string, name: string, shortName: string)
    ensures code + " " + name + " " + shortName == code + (" " + name + " " + shortName)
  {
  }

  /** A station is found by its own code, in any letter case. */
  lemma StationFoundByCode(query: string, code: string, meta: StationMeta)
    requires Needle(Some(query)) == Lower(code) && code != ""
    ensures Contains(Haystack(code, meta), Needle(Some(query)))
  {
    var rest := " " + meta.name + " " + meta.shortName;
    Regroup(code, meta.name, meta.shortName);
    LowerDistributes(code, rest);
    assert Lower(code) <= Haystack(code, meta);
  }

  /** Refining a query never finds more: a needle that contains another matches fewer stations. */
  lemma RefinedQueryFindsFewer(code: string, meta: StationMeta, narrow: string, wide: string)
    requires Contains(narrow, wide) && Contains(Haystack(code, meta), narrow)
    ensures Contains(Haystack(code, meta), wide)
  {
    ContainsTransitive(Haystack(code, meta), narrow, wide);
  }

  // ---------------------------------------------------------------------
  // `_filter_and_limit` of the stations endpoint

  /** A GeoJSON property value: only strings take part in the search. */
  datatype PropValue = Text(s: string) | NotText

  /** A feature: its property values in order, and the `type` of its geometry when it has one. */
  datatype Feature = Feature(props: seq<PropValue>, geometryType: Option<string>)

  function LoweredTexts(props: seq<PropValue>): seq<string> {
    if props == [] then []
    else (if props[0].Text? then [Lower(props[0].s)] else []) + LoweredTexts(props[1..])
  }

  /** `_matches(feature, needle)` */
  predicate Matches(f: Feature, needle: string) {
    Contains(Join(LoweredTexts(f.props), " "), needle)
  }

  predicate IsPoint(f: Feature) {
    f.geometryType == Some("Point")
  }

  /** The search test of `_filter_and_limit` for a non-empty needle. */
  function Searching(needle: string): Feature -> bool {
    f => Matches(f, needle)
  }

  /** Both tests of `_filter_and_limit`: an empty needle does not search. */
  function Passing(needle: string, coordsOnly: bool): Feature -> bool {
    f => (needle == "" || Matches(f, needle)) && (!coordsOnly || IsPoint(f))
  }

  /** The features that pass the search for `needle` (none when it is empty) and, when
      `coordsOnly`, the `Point` test, each test filtering the previous list. */
  function Located(features: seq<Feature>, needle: string, coordsOnly: bool): seq<Feature> {
    var searched := if needle != "" then Filter(features, Searching(needle)) else features;
    if coordsOnly then Filter(searched, IsPoint) else searched
  }

  /** `_filter_and_limit` over the `features` list, with the request's `q`,
      `with_coords_only` and `limit`. */
  function FilterAndLimit(features: seq<Feature>, q: Option<string>, coordsOnly: bool, limit: Option<int>): seq<Feature> {
    var located := Located(features, Needle(q), coordsOnly);
    if limit.Some? && limit.value > 0 then located[..if limit.value < |located| then limit.value else |located|]
    else located
  }

  /** Searching, then keeping the located features, keeps the features that pass both tests. */
  lemma SearchThenLocate(features: seq<Feature>, needle: string, coordsOnly: bool)
    ensures Located(features, needle, coordsOnly) == Filter(features, Passing(needle, coordsOnly))
  {
    var passing := Passing(needle, coordsOnly);
    if needle != "" && coordsOnly {
      FilterTwice(features, Searching(needle), IsPoint, passing);
    } else if needle != "" {
      FilterSame(features, Searching(needle), passing);
    } else if coordsOnly {
      FilterSame(features, IsPoint, passing);
    } else {
      FilterAll(features, passing);
    }
  }

  /** The result is the features that pass the search and the coordinates test, in their order,
      cut to `limit` when a positive one is given; so it is a subsequence of the input. */
  lemma FilterAndLimitSelects(features: seq<Feature>, q: Option<string>, coordsOnly: bool, limit: Option<int>)
    ensures var selected := Filter(features, Passing(Needle(q), coordsOnly));
      var r := FilterAndLimit(features, q, coordsOnly, limit);
      && r <= selected
      && (limit.Some? && limit.value > 0 ==> |r| == if limit.value < |selected| then limit.value else |selected|)
      && (!(limit.Some? && limit.value > 0) ==> r == selected)
      && Subsequence(r, features)
  {
    var needle := Needle(q);
    var selected := Filter(features, Passing(needle, coordsOnly));
    SearchThenLocate(features, needle, coordsOnly);
    FilterIsSubsequence(features, Passing(needle, coordsOnly));
    var r := FilterAndLimit(features, q, coordsOnly, limit);
    if limit.Some? && limit.value > 0 {
      PrefixIsSubsequence(selected, features, |r|);
      assert r == selected[..|r|];
    }
  }
}
