/**
  `scripts/batch_clean_stations.py`: clean the first station file that exists among three
  candidates into `data/stations.fixed.csv`, back up `data/stations.csv` when there is one,
  and replace it with the cleaned file.
 */
module BatchCleanStations {
  import opened Results
  import opened Disk
  import opened StationCsv

  const Candidates: seq<string> := ["data/stations.utf8.csv", "data/stations.csv", "data/stations.clean.csv"]
  const Dst := "data/stations.fixed.csv"
  const Orig := "data/stations.csv"
  const Backup := "data/stations.csv.bak"

  /** `sys.exit(1)` when no candidate exists. */
  datatype Exit = NoCandidate

  /** The index of the first of `cands` that exists in `files`. */
  function FirstExisting(cands: seq<string>, files: map<string, string>): (r: Option<nat>)
    ensures r.None? <==> forall i :: 0 <= i < |cands| ==> cands[i] !in files
    ensures r.Some? ==> r.value < |cands| && cands[r.value] in files
    ensures r.Some? ==> forall i :: 0 <= i < r.value ==> cands[i] !in files
  {
    if cands == [] then None
    else if cands[0] in files then Some(0)
    else
      match FirstExisting(cands[1..], files)
      case None => None
      case Some(k) => Some(k + 1)
  }

  /** The source the script cleans, if any candidate exists. */
  function SourceOf(files: map<string, string>): Option<string> {
    match FirstExisting(Candidates, files)
    case None => None
    case Some(k) => Some(Candidates[k])
  }

  /** The file store after the script cleaned `src`: the fixed file written, the old original
      copied to the backup when it existed, and the original replaced by the fixed file. */
  function Replaced(files: map<string, string>, src: string): map<string, string>
    requires src in files
  {
    var text := CsvText(Rows(DataLines(files[src])));
    var written := files[Dst := text];
    var saved := if Orig in written then written[Backup := written[Orig]] else written;
    saved[Orig := text]
  }

  /** After a run, the original and the fixed file both hold the cleaned text, the backup holds
      what the original held before (when it existed), and no other file changed. */
  lemma ReplacedFiles(files: map<string, string>, src: string)
    requires src in files
    ensures var after := Replaced(files, src);
      var text := CsvText(Rows(DataLines(files[src])));
      after[Orig] == text && after[Dst] == text
      && (Orig in files ==> after[Backup] == files[Orig])
      && (Orig !in files ==> (Backup in after <==> Backup in files) && (Backup in files ==> after[Backup] == files[Backup]))
      && after.Keys == files.Keys + {Dst, Orig} + (if Orig in files then {Backup} else {})
      && forall p :: p in files && p != Dst && p != Orig && p != Backup ==> after[p] == files[p]
  {
  }

  /** The candidate loop: the first existing file, in the order of `Candidates`. */
  method PickSource(fs: Files) returns (src: Option<string>)
    ensures src == SourceOf(fs.contents)
  {
    src := None;
    for k := 0 to |Candidates|
      invariant forall i :: 0 <= i < k ==> Candidates[i] !in fs.contents
    {
      if Candidates[k] in fs.contents {
        src := Some(Candidates[k]);
        break;
      }
    }
  }

  /** The script on the file store. */
  method BatchCleanStations(fs: Files) returns (r: Result<nat, Exit>)
    modifies fs
    ensures SourceOf(old(fs.contents)).None? ==> r == Err(NoCandidate) && fs.contents == old(fs.contents)
    ensures SourceOf(old(fs.contents)).Some? ==>
      var src := SourceOf(old(fs.contents)).value;
      src in old(fs.contents)
      && r == Ok(|Rows(DataLines(old(fs.contents)[src]))|)
      && fs.contents == Replaced(old(fs.contents), src)
  {
    var src := PickSource(fs);
    if src.None? {
      return Err(NoCandidate);
    }
    var lines := Lines(fs.contents[src.value]);
    var data := if lines == [] then [] else lines[1..];
    var rows := CleanLines(data);
    fs.Write(Dst, CsvText(rows));
    if Orig in fs.contents {
      fs.Copy(Orig, Backup);
    }
    fs.Copy(Dst, Orig);
    r := Ok(|rows|);
  }
}
