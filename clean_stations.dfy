/**
  `scripts/clean_stations.py`: rebuild the six station fields of every non-blank line of
  `data/stations.utf8.csv` after its header and write them, under the fixed header, to
  `data/stations.fixed.csv`.
 */
module CleanStations {
  import opened Results
  import opened Text
  import opened Disk
  import opened StationCsv

  const Src := "data/stations.utf8.csv"
  const Dst := "data/stations.fixed.csv"

  /** `raise SystemExit(...)`: the script stops with a message naming the missing source. */
  datatype Exit = SourceNotFound(path: string)

  /** The text written for a source text: the fixed header, then one row per non-blank line
      after the source's own first line. */
  function Cleaned(src: string): string {
    CsvText(Rows(DataLines(src)))
  }

  /** Whatever the source's first line says, the output starts with the fixed six-name header
      and its rows come from the lines after it only. */
  lemma CleanedHeader(header: string, rest: string)
    requires '\n' !in header
    ensures Cleaned(header + "\n" + rest) == RenderRow(Header) + RenderRows(Rows(Lines(rest)))
    ensures Cleaned(header) == RenderRow(Header)
  {
    HeaderDropped(header, rest);
    OnlyHeader(header);
  }

  /** The script on the file store: a missing source stops it and writes nothing; otherwise
      the cleaned text is written to the destination and the number of rows is reported. */
  method CleanStations(fs: Files) returns (r: Result<nat, Exit>)
    modifies fs
    ensures Src !in old(fs.contents) ==> r == Err(SourceNotFound(Src)) && fs.contents == old(fs.contents)
    ensures Src in old(fs.contents) ==>
      r == Ok(|Rows(DataLines(old(fs.contents)[Src]))|)
      && fs.contents == old(fs.contents)[Dst := Cleaned(old(fs.contents)[Src])]
  {
    if Src !in fs.contents {
      return Err(SourceNotFound(Src));
    }
    var lines := Lines(fs.contents[Src]);
    var data := if lines == [] then [] else lines[1..];
    var rows := CleanLines(data);
    fs.Write(Dst, CsvText(rows));
    r := Ok(|rows|);
  }
}
