/**
  The station CSV repair shared by the two cleaning scripts: reading a text file line by
  line, rebuilding the six station fields from a line whose `long_name` may hold unquoted
  commas, and writing rows the way `csv.writer` does with `QUOTE_MINIMAL`.
 */
module StationCsv {
  import opened Text
  import opened Results
  import opened Seqs

  // ---------------------------------------------------------------------
  // Reading lines

  /** The lines `for line in fh` yields, without their `\n`: the text split at each newline,
      where a final empty piece (an empty text, or one that ends in a newline) is no line. */
  function Lines(text: string): seq<string> {
    DropFinalEmpty(Split(text, '\n'))
  }

  function DropFinalEmpty(pieces: seq<string>): seq<string>
    requires |pieces| >= 1
  {
    if pieces[|pieces| - 1] == "" then pieces[..|pieces| - 1] else pieces
  }

  /** A piece in front does not change which final piece is dropped. */
  lemma DropFinalEmptyCons(head: string, pieces: seq<string>)
    requires |pieces| >= 1
    ensures DropFinalEmpty([head] + pieces) == [head] + DropFinalEmpty(pieces)
  {
    if pieces[|pieces| - 1] == "" {
      assert ([head] + pieces)[..|pieces|] == [head] + pieces[..|pieces| - 1];
    }
  }

  /** No line holds a newline, and joining the lines with newlines gives the text back, up to
      the newline that ends the last one. */
  lemma LinesJoin(text: string)
    ensures NoneContains(Lines(text), '\n')
    ensures text == Join(Lines(text), "\n") + (if text != "" && text[|text| - 1] == '\n' then "\n" else "")
  {
    var pieces := Split(text, '\n');
    var n := |pieces|;
    SplitPiecesAvoidSep(text, '\n');
    JoinSplit(text, '\n');
    if n == 1 {
      assert text == pieces[0];
      if text != "" {
        assert text[|text| - 1] in pieces[0];
      }
    } else {
      var init, last := pieces[..n - 1], pieces[n - 1];
      assert pieces == init + [last];
      JoinAppend(init, [last], "\n");
      assert text == Join(init, "\n") + "\n" + last;
      if last != "" {
        assert text[|text| - 1] == last[|last| - 1];
        assert last[|last| - 1] in pieces[n - 1];
      }
    }
  }

  /** The lines after the one `fh.readline()` consumed as the header. */
  function DataLines(text: string): seq<string> {
    var lines := Lines(text);
    if lines == [] then [] else lines[1..]
  }

  /** The header line `fh.readline()` consumes is never among the data lines, whatever it holds. */
  lemma HeaderDropped(header: string, rest: string)
    requires '\n' !in header
    ensures DataLines(header + "\n" + rest) == Lines(rest)
  {
    var text := header + "\n" + rest;
    SplitAfter(header, '\n', rest);
    DropFinalEmptyCons(header, Split(rest, '\n'));
    assert Lines(text) == [header] + Lines(rest);
  }

  /** A text without a newline is a header at most: it has no data lines. */
  lemma OnlyHeader(text: string)
    requires '\n' !in text
    ensures DataLines(text) == []
  {
    SplitNone(text, '\n');
  }

  /** `line.rstrip("\n\r")` */
  function TrimEol(line: string): (r: string)
    ensures r <= line
    ensures r != [] ==> r[|r| - 1] != '\n' && r[|r| - 1] != '\r'
    ensures forall i :: |r| <= i < |line| ==> line[i] == '\n' || line[i] == '\r'
  {
    if line != [] && (line[|line| - 1] == '\n' || line[|line| - 1] == '\r') then TrimEol(line[..|line| - 1])
    else line
  }

  /** A line the loop keeps: not blank once its line ending is removed. */
  predicate IsDataLine(line: string) {
    !IsBlank(TrimEol(line))
  }

  // ---------------------------------------------------------------------
  // The comma-recovery rule

  /** `[""] * k` */
  function Empties(k: nat): (r: seq<string>)
    ensures |r| == k && forall i :: 0 <= i < k ==> r[i] == ""
  {
    if k == 0 then [] else Empties(k - 1) + [""]
  }

  /** `"," * k` */
  function Commas(k: nat): (r: string)
    ensures |r| == k && forall i :: 0 <= i < k ==> r[i] == ','
  {
    if k == 0 then [] else Commas(k - 1) + ","
  }

  /** `parts += [""] * (6 - len(parts))` when there are fewer than six parts. */
  function Padded(parts: seq<string>): (r: seq<string>)
    ensures |r| >= 6 && (|parts| >= 6 ==> r == parts)
  {
    if |parts| < 6 then parts + Empties(6 - |parts|) else parts
  }

  /** The row of a line: code and region are the first two comma pieces, short name, latitude
      and longitude the last three, and the long name is the pieces between them rejoined. */
  function Fields(line: string): (r: seq<string>)
    ensures |r| == 6
  {
    Rejoined(Padded(Split(line, ',')))
  }

  /** Six or more pieces as six fields, the middle pieces joined back into one. */
  function Rejoined(parts: seq<string>): seq<string>
    requires |parts| >= 6
  {
    parts[..2] + [Join(parts[2..|parts| - 3], ",")] + parts[|parts| - 3..]
  }

  /** Rejoining the middle pieces keeps the comma join of all of them. */
  lemma JoinRejoined(parts: seq<string>)
    requires |parts| >= 6
    ensures Join(Rejoined(parts), ",") == Join(parts, ",")
  {
    var n := |parts|;
    assert parts[..2] + parts[2..n - 3] + parts[n - 3..] == parts by {
      assert parts[..2] + parts[2..n - 3] == parts[..n - 3];
    }
    JoinMiddle(parts[..2], parts[2..n - 3], parts[n - 3..]);
  }

  /** The six fields one by one. */
  lemma RejoinedFields(parts: seq<string>)
    requires |parts| >= 6
    ensures var n := |parts|;
      Rejoined(parts) == [parts[0], parts[1], Join(parts[2..n - 3], ","), parts[n - 3], parts[n - 2], parts[n - 1]]
  {
  }

  /** Joining the middle pieces first gives the same comma join. */
  lemma JoinMiddle(head: seq<string>, mid: seq<string>, last: seq<string>)
    requires |head| >= 1 && |mid| >= 1 && |last| >= 1
    ensures Join(head + [Join(mid, ",")] + last, ",") == Join(head + mid + last, ",")
  {
    var m := Join(mid, ",");
    Join3(head, [m], last);
    Join3(head, mid, last);
    assert Join([m], ",") == m;
  }

  lemma Join3(x: seq<string>, y: seq<string>, z: seq<string>)
    requires |x| >= 1 && |y| >= 1 && |z| >= 1
    ensures Join(x + y + z, ",") == Join(x, ",") + "," + Join(y, ",") + "," + Join(z, ",")
  {
    JoinAppend(x + y, z, ",");
    JoinAppend(x, y, ",");
  }

  /** The pieces `[a, b] + mid + [c, d, e]` join as the five of them with the middle joined. */
  lemma JoinAround(a: string, b: string, mid: seq<string>, c: string, d: string, e: string)
    requires |mid| >= 1
    ensures Join([a, b] + mid + [c, d, e], ",") == Join([a, b, Join(mid, ","), c, d, e], ",")
  {
    var m := Join(mid, ",");
    Join3([a, b], mid, [c, d, e]);
    Join3([a, b], [m], [c, d, e]);
    Six(a, b, m, c, d, e);
    assert Join([m], ",") == m;
  }

  lemma Six(a: string, b: string, m: string, c: string, d: string, e: string)
    ensures [a, b] + [m] + [c, d, e] == [a, b, m, c, d, e]
  {
    var x := [a, b] + [m] + [c, d, e];
    assert |x| == 6;
    assert x[0] == a && x[1] == b && x[2] == m && x[3] == c && x[4] == d && x[5] == e;
  }

  /** A line with at least six comma pieces is its six fields joined by commas: no text is lost
      or moved by the rule. */
  lemma FieldsRoundTrip(line: string)
    requires |Split(line, ',')| >= 6
    ensures Join(Fields(line), ",") == line
  {
    var parts := Split(line, ',');
    JoinSplit(line, ',');
    assert Padded(parts) == parts;
    JoinRejoined(parts);
  }

  /** Joining pieces followed by `k` empty ones adds `k` commas. */
  lemma {:induction false} JoinEmpties(parts: seq<string>, k: nat)
    requires |parts| >= 1
    ensures Join(parts + Empties(k), ",") == Join(parts, ",") + Commas(k)
  {
    if k == 0 {
      assert parts + [] == parts;
    } else {
      JoinEmpties(parts, k - 1);
      var init := parts + Empties(k - 1);
      assert parts + Empties(k) == init + [""];
      JoinAppend(init, [""], ",");
      assert Join([""], ",") == "";
    }
  }

  /** A line with fewer than six pieces is padded: its fields join to the line followed by the
      missing commas. */
  lemma FieldsPadded(line: string)
    requires |Split(line, ',')| < 6
    ensures Join(Fields(line), ",") == line + Commas(6 - |Split(line, ',')|)
  {
    var parts := Split(line, ',');
    var padded := Padded(parts);
    JoinSplit(line, ',');
    JoinEmpties(parts, 6 - |parts|);
    JoinRejoined(padded);
  }

  /** The rule reads back any six fields of which only the long name may hold commas: it is the
      inverse of joining them. */
  lemma FieldsOfJoin(f: seq<string>)
    requires |f| == 6
    requires forall i :: 0 <= i < 6 && i != 2 ==> ',' !in f[i]
    ensures Fields(Join(f, ",")) == f
  {
    var mid := Split(f[2], ',');
    var q := [f[0], f[1]] + mid + [f[3], f[4], f[5]];
    SplitPiecesAvoidSep(f[2], ',');
    JoinSplit(f[2], ',');
    assert f == [f[0], f[1], Join(mid, ","), f[3], f[4], f[5]];
    JoinAround(f[0], f[1], mid, f[3], f[4], f[5]);
    NoneContainsAround(f[0], f[1], mid, f[3], f[4], f[5]);
    SplitJoin(q, ',');
    FieldsOfPieces(Join(f, ","), q, mid);
  }

  /** A line whose pieces are `[a, b] + mid + [c, d, e]` has the fields `a`, `b`, `mid` joined,
      `c`, `d` and `e`. */
  lemma FieldsOfPieces(line: string, q: seq<string>, mid: seq<string>)
    requires |mid| >= 1 && |q| == |mid| + 5 && q[2..|q| - 3] == mid && Split(line, ',') == q
    ensures Fields(line) == [q[0], q[1], Join(mid, ","), q[|q| - 3], q[|q| - 2], q[|q| - 1]]
  {
    assert Padded(q) == q;
    RejoinedFields(q);
  }

  lemma NoneContainsAppend(a: seq<string>, b: seq<string>)
    requires NoneContains(a, ',') && NoneContains(b, ',')
    ensures NoneContains(a + b, ',')
  {
    forall i, j | 0 <= i < |a + b| && 0 <= j < |(a + b)[i]| ensures (a + b)[i][j] != ',' {
      if i >= |a| {
        assert (a + b)[i] == b[i - |a|];
      }
    }
  }

  lemma NoneContainsAround(a: string, b: string, mid: seq<string>, c: string, d: string, e: string)
    requires ',' !in a && ',' !in b && ',' !in c && ',' !in d && ',' !in e && NoneContains(mid, ',')
    ensures NoneContains([a, b] + mid + [c, d, e], ',')
  {
    assert NoneContains([a, b], ',') by {
      forall i, j | 0 <= i < 2 && 0 <= j < |[a, b][i]| ensures [a, b][i][j] != ',' {
        assert [a, b][i][j] in [a, b][i];
      }
    }
    assert NoneContains([c, d, e], ',') by {
      forall i, j | 0 <= i < 3 && 0 <= j < |[c, d, e][i]| ensures [c, d, e][i][j] != ',' {
        assert [c, d, e][i][j] in [c, d, e][i];
      }
    }
    NoneContainsAppend([a, b], mid);
    NoneContainsAppend([a, b] + mid, [c, d, e]);
  }

  // ---------------------------------------------------------------------
  // The cleaning loop

  /** The rows the loop appends for `data`: one six-field row per kept line, in order. */
  function Rows(data: seq<string>): seq<seq<string>> {
    var kept := Filter(data, IsDataLine);
    seq(|kept|, i requires 0 <= i < |kept| => Fields(TrimEol(kept[i])))
  }

  /** One more line: a blank line adds nothing, any other line adds its fields. */
  lemma RowsStep(data: seq<string>, line: string)
    ensures Rows(data + [line]) == Rows(data) + (if IsDataLine(line) then [Fields(TrimEol(line))] else [])
  {
    FilterSnoc(data, line, IsDataLine);
  }

  /** Every row has six fields, there is one row per non-blank line, and a line is kept
      exactly when it is not blank. */
  lemma RowsShape(data: seq<string>, line: string)
    ensures |Rows(data)| == |Filter(data, IsDataLine)| <= |data|
    ensures forall i :: 0 <= i < |Rows(data)| ==> |Rows(data)[i]| == 6
    ensures line in Filter(data, IsDataLine) <==> line in data && !IsBlank(TrimEol(line))
  {
    FilterMembers(data, IsDataLine, line);
  }

  /** The loop body for a kept line: split at every comma, pad to six pieces, and rejoin the
      middle pieces as the long name. */
  method RebuildRow(line: string) returns (row: seq<string>)
    ensures row == Fields(line)
  {
    var parts := Split(line, ',');
    if |parts| < 6 {
      parts := parts + Empties(6 - |parts|);
    }
    RejoinedFields(parts);
    var n := |parts|;
    row := [parts[0], parts[1], Join(parts[2..n - 3], ","), parts[n - 3], parts[n - 2], parts[n - 1]];
  }

  /** The loop of the cleaning scripts over the lines after the header. */
  method CleanLines(data: seq<string>) returns (rows: seq<seq<string>>)
    ensures rows == Rows(data)
  {
    rows := [];
    for i := 0 to |data|
      invariant rows == Rows(data[..i])
    {
      assert data[..i + 1] == data[..i] + [data[i]];
      RowsStep(data[..i], data[i]);
      var line := TrimEol(data[i]);
      if IsBlank(line) {
        continue;
      }
      var row := RebuildRow(line);
      rows := rows + [row];
    }
    assert data[..|data|] == data;
  }

  // ---------------------------------------------------------------------
  // Writing with `csv.writer(out, quoting=csv.QUOTE_MINIMAL)`

  const Header: seq<string> := ["code", "region", "long_name", "short_name", "latitude", "longitude"]

  /** The characters that make the writer quote a field: the delimiter, the quote character
      and the line-break characters. */
  predicate Special(c: char) {
    c == ',' || c == '"' || c == '\r' || c == '\n'
  }

  predicate NeedsQuotes(f: string) {
    exists i :: 0 <= i < |f| && Special(f[i])
  }

  /** The field with every quote character doubled. */
  function Escaped(f: string): string {
    if f == [] then [] else (if f[0] == '"' then "\"\"" else [f[0]]) + Escaped(f[1..])
  }

  function RenderField(f: string): string {
    if NeedsQuotes(f) then "\"" + Escaped(f) + "\"" else f
  }

  /** The fields of one row, rendered and separated by commas. */
  function RenderFields(fields: seq<string>): string {
    if |fields| == 0 then ""
    else if |fields| == 1 then RenderField(fields[0])
    else RenderField(fields[0]) + "," + RenderFields(fields[1..])
  }

  /** `writer.writerow(fields)`: a row whose only field is empty is written as `""`, and every
      row ends with the writer's `\r\n` terminator. */
  function RenderRow(fields: seq<string>): string {
    (if fields == [""] then "\"\"" else RenderFields(fields)) + "\r\n"
  }

  function RenderRows(rows: seq<seq<string>>): string {
    if rows == [] then "" else RenderRow(rows[0]) + RenderRows(rows[1..])
  }

  /** The text of the written file: the fixed header, then the rows. */
  function CsvText(rows: seq<seq<string>>): string {
    RenderRow(Header) + RenderRows(rows)
  }

  // `csv.DictWriter(f, fieldnames=fieldnames)`

  /** A row as `csv.DictReader` gives it: field name to text. */
  type Row = map<string, string>

  /** The values of `row` in the order of `fieldnames`, a missing one written as empty. */
  function RowValues(fieldnames: seq<string>, row: Row): (r: seq<string>)
    ensures |r| == |fieldnames|
  {
    seq(|fieldnames|, i requires 0 <= i < |fieldnames| => if fieldnames[i] in row then row[fieldnames[i]] else "")
  }

  /** The fields of `row` are all among `fieldnames`. */
  predicate FieldsAmong(fieldnames: seq<string>, row: Row) {
    forall k :: k in row ==> k in fieldnames
  }

  /** What `writer.writeheader()` and `writer.writerows(rows)` leave in the file: the header,
      then the rows up to the first one with a field that is not among `fieldnames`, where the
      writer stops with a `ValueError`. */
  datatype Written = Written(text: string, failed: bool)

  function DictRows(fieldnames: seq<string>, rows: seq<Row>): (r: Written)
    ensures !r.failed <==> forall i :: 0 <= i < |rows| ==> FieldsAmong(fieldnames, rows[i])
  {
    if rows == [] then Written("", false)
    else if !FieldsAmong(fieldnames, rows[0]) then Written("", true)
    else
      var rest := DictRows(fieldnames, rows[1..]);
      assert forall i :: 1 <= i < |rows| ==> rows[i] == rows[1..][i - 1];
      Written(RenderRow(RowValues(fieldnames, rows[0])) + rest.text, rest.failed)
  }

  function DictText(fieldnames: seq<string>, rows: seq<Row>): Written {
    var body := DictRows(fieldnames, rows);
    Written(RenderRow(fieldnames) + body.text, body.failed)
  }

  /** Rows whose fields need no quoting are written as their comma joins. */
  lemma {:induction false} PlainFields(fields: seq<string>)
    requires forall i :: 0 <= i < |fields| ==> !NeedsQuotes(fields[i])
    ensures RenderFields(fields) == Join(fields, ",")
  {
    if |fields| > 1 {
      PlainFields(fields[1..]);
    }
  }

  // A reader for one rendered row, the partner of the writer.

  /** The rest of a quoted field after its opening quote: the field, with `""` read as `"`, and
      the text after the closing quote. */
  function ReadQuoted(s: string): (r: Option<(string, string)>)
    ensures r.Some? ==> |r.value.1| < |s|
  {
    if s == [] then None
    else if s[0] != '"' then
      match ReadQuoted(s[1..])
      case None => None
      case Some((f, rest)) => Some(([s[0]] + f, rest))
    else if |s| >= 2 && s[1] == '"' then
      match ReadQuoted(s[2..])
      case None => None
      case Some((f, rest)) => Some(("\"" + f, rest))
    else Some(("", s[1..]))
  }

  /** The length of the text before the first comma. */
  function Plain(s: string): (n: nat)
    ensures n <= |s|
    ensures forall i :: 0 <= i < n ==> s[i] != ','
    ensures n < |s| ==> s[n] == ','
  {
    if s == [] || s[0] == ',' then 0 else 1 + Plain(s[1..])
  }

  /** The fields of one row: a field that starts with a quote runs to its closing quote, any
      other to the next comma. Text after a closing quote other than a comma is refused. */
  function ReadFields(s: string): Option<seq<string>>
    decreases |s|
  {
    if s != [] && s[0] == '"' then
      match ReadQuoted(s[1..])
      case None => None
      case Some((f, rest)) =>
        if rest == [] then Some([f])
        else if rest[0] == ',' then
          match ReadFields(rest[1..])
          case None => None
          case Some(fs) => Some([f] + fs)
        else None
    else
      var n := Plain(s);
      if n == |s| then Some([s])
      else
        match ReadFields(s[n + 1..])
        case None => None
        case Some(fs) => Some([s[..n]] + fs)
  }

  lemma {:induction false} ReadEscaped(f: string, tail: string)
    requires tail == [] || tail[0] != '"'
    ensures ReadQuoted(Escaped(f) + "\"" + tail) == Some((f, tail))
  {
    if f != [] {
      ReadEscaped(f[1..], tail);
      var s := Escaped(f) + "\"" + tail;
      if f[0] == '"' {
        assert s == "\"\"" + (Escaped(f[1..]) + "\"" + tail);
      } else {
        assert s == [f[0]] + (Escaped(f[1..]) + "\"" + tail);
      }
      assert [f[0]] + f[1..] == f;
    }
  }

  /** The reader finds a quoted field and the text after it. */
  lemma ReadFirstQuoted(f: string, tail: string)
    requires NeedsQuotes(f) && (tail == [] || tail[0] == ',')
    ensures var s := RenderField(f) + tail; s[0] == '"' && ReadQuoted(s[1..]) == Some((f, tail))
  {
    var body := Escaped(f) + "\"" + tail;
    ReadEscaped(f, tail);
    assert RenderField(f) + tail == "\"" + body;
    assert ("\"" + body)[1..] == body;
  }

  /** The reader finds an unquoted field and the text after it. */
  lemma ReadFirstPlain(f: string, tail: string)
    requires !NeedsQuotes(f) && (tail == [] || tail[0] == ',')
    ensures var s := f + tail; (s == [] || s[0] != '"') && Plain(s) == |f| && s[..|f|] == f
  {
    var s := f + tail;
    forall i | 0 <= i < |f| ensures s[i] != ',' {
      assert s[i] == f[i] && !Special(f[i]);
    }
    if f != [] {
      assert !Special(f[0]);
    }
    PlainAt(s, |f|);
  }

  lemma {:induction false} PlainAt(s: string, n: nat)
    requires n <= |s| && (forall i :: 0 <= i < n ==> s[i] != ',') && (n < |s| ==> s[n] == ',')
    ensures Plain(s) == n
  {
    if n > 0 {
      PlainAt(s[1..], n - 1);
    }
  }

  /** The reader takes a quoted first field, then reads what follows its comma. */
  lemma ReadQuotedThen(f: string, tail: string, rest: seq<string>)
    requires NeedsQuotes(f) && (tail == [] || tail[0] == ',')
    requires tail == [] ==> rest == []
    requires tail != [] ==> ReadFields(tail[1..]) == Some(rest)
    ensures ReadFields(RenderField(f) + tail) == Some([f] + rest)
  {
    ReadFirstQuoted(f, tail);
    if tail == [] {
      assert [f] + rest == [f];
    }
  }

  /** The reader takes an unquoted first field, then reads what follows its comma. */
  lemma ReadPlainThen(f: string, tail: string, rest: seq<string>)
    requires !NeedsQuotes(f) && (tail == [] || tail[0] == ',')
    requires tail == [] ==> rest == []
    requires tail != [] ==> ReadFields(tail[1..]) == Some(rest)
    ensures ReadFields(f + tail) == Some([f] + rest)
  {
    ReadFirstPlain(f, tail);
    var s := f + tail;
    if tail == [] {
      assert s == f && [f] + rest == [f];
    } else {
      assert s[|f| + 1..] == tail[1..];
    }
  }

  /** Reading a rendered row gives its fields back: the quoting loses nothing. */
  lemma {:induction false} RenderFieldsRoundTrip(fields: seq<string>)
    requires |fields| >= 1
    ensures ReadFields(RenderFields(fields)) == Some(fields)
  {
    var f := fields[0];
    var rest := fields[1..];
    var tail := if |fields| == 1 then "" else "," + RenderFields(rest);
    assert RenderFields(fields) == RenderField(f) + tail;
    assert [f] + rest == fields;
    if |fields| > 1 {
      RenderFieldsRoundTrip(rest);
      assert tail[1..] == RenderFields(rest);
    }
    if NeedsQuotes(f) {
      ReadQuotedThen(f, tail, rest);
    } else {
      ReadPlainThen(f, tail, rest);
    }
  }
}
