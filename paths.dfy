/**
  Validation of uploaded paths before anything is written into the data directory:
  relative-path normalisation for folder uploads, the ZIP entry filter, the placement
  of uploaded files in a scratch tree, and the choice of the dataset root inside it.

  A scratch tree is modelled by its files: each file's path (a list of names) maps
  to its bytes. Directories are the proper prefixes of file paths.
 */
module Paths {
  import opened Text
  import opened Results
  import opened Errors
  import opened Dates
  import opened Seqs

  type Tree = map<seq<string>, string>

  /** Python's `[p for p in parts if p]` */
  function DropEmpty(parts: seq<string>): (r: seq<string>)
    ensures |r| <= |parts|
    ensures forall i :: 0 <= i < |r| ==> r[i] != ""
    ensures forall p :: p in r <==> p in parts && p != ""
  {
    if parts == [] then []
    else (if parts[0] == "" then [] else [parts[0]]) + DropEmpty(parts[1..])
  }

  lemma {:induction false} DropEmptyLacks(parts: seq<string>, x: char)
    requires NoneContains(parts, x)
    ensures NoneContains(DropEmpty(parts), x)
    decreases |parts|
  {
    if parts != [] {
      DropEmptyLacks(parts[1..], x);
      var tail := DropEmpty(parts[1..]);
      var head := if parts[0] == "" then [] else [parts[0]];
      assert DropEmpty(parts) == head + tail;
      assert NoneContains(head, x);
    }
  }

  lemma {:induction false} DropEmptyKeepsClean(parts: seq<string>)
    requires forall i :: 0 <= i < |parts| ==> parts[i] != ""
    ensures DropEmpty(parts) == parts
    decreases |parts|
  {
    if parts != [] {
      DropEmptyKeepsClean(parts[1..]);
      assert parts == [parts[0]] + parts[1..];
    }
  }

  /** Leading separators only add empty pieces to a split. */
  lemma {:induction false} LeadingSeparatorsDropOut(s: string)
    ensures DropEmpty(Split(LStripChar(s, '/'), '/')) == DropEmpty(Split(s, '/'))
    decreases |s|
  {
    if s != [] && s[0] == '/' {
      LeadingSeparatorsDropOut(s[1..]);
      assert Split(s, '/') == [""] + Split(s[1..], '/');
      assert ([""] + Split(s[1..], '/'))[1..] == Split(s[1..], '/');
    }
  }

  /** The segments `_safe_relpath` keeps: backslashes read as `/`, empty segments dropped. */
  function Segments(value: string): seq<string> {
    DropEmpty(Split(ReplaceChar(value, '\\', '/'), '/'))
  }

  /** No segment of `value`, with backslashes read as `/`, is `..`. */
  predicate NoParentSegment(value: string) {
    ".." !in Split(ReplaceChar(value, '\\', '/'), '/')
  }

  /** `_safe_relpath(value)`: refuses a `..` segment, otherwise keeps the non-empty segments
      joined by `/`. The result has no backslash, no leading or trailing `/` and no empty
      segment, and splitting it gives back exactly the segments of the input. */
  function SafeRelpath(value: string): (r: Result<string, Failure>)
    ensures r.Err? <==> !NoParentSegment(value)
    ensures r.Err? ==> r.error == InvalidUploadPath
    ensures r.Ok? ==> '\\' !in r.value && !StartsWith(r.value, "/") && !EndsWith(r.value, "/")
    ensures r.Ok? ==> (r.value == "" <==> Segments(value) == [])
    ensures r.Ok? && r.value != "" ==> Split(r.value, '/') == Segments(value)
  {
    var raw := LStripChar(ReplaceChar(value, '\\', '/'), '/');
    var parts := DropEmpty(Split(raw, '/'));
    SafeRelpathFacts(value);
    if ".." in parts then Err(InvalidUploadPath) else Ok(Join(parts, "/"))
  }

  lemma {:induction false} SafeRelpathFacts(value: string)
    ensures var parts := DropEmpty(Split(LStripChar(ReplaceChar(value, '\\', '/'), '/'), '/'));
      && parts == Segments(value)
      && (".." in parts <==> ".." in Split(ReplaceChar(value, '\\', '/'), '/'))
      && NoneContains(parts, '/') && NoneContains(parts, '\\')
      && (parts != [] ==> Split(Join(parts, "/"), '/') == parts)
      && '\\' !in Join(parts, "/")
      && (Join(parts, "/") == "" <==> parts == [])
      && (parts != [] ==> Join(parts, "/")[0] != '/' && Join(parts, "/")[|Join(parts, "/")| - 1] != '/')
  {
    var replaced := ReplaceChar(value, '\\', '/');
    LeadingSeparatorsDropOut(replaced);
    var parts := DropEmpty(Split(LStripChar(replaced, '/'), '/'));
    SplitPiecesAvoidSep(replaced, '/');
    DropEmptyLacks(Split(replaced, '/'), '/');
    assert '\\' !in replaced;
    SplitPiecesLack(replaced, '/', '\\');
    DropEmptyLacks(Split(replaced, '/'), '\\');
    JoinLacks(parts, "/", '\\');
    if parts != [] {
      SplitJoin(parts, '/');
      var j := Join(parts, "/");
      JoinEnds(parts, "/");
      assert parts[0][0] != '/';
      assert parts[|parts| - 1][|parts[|parts| - 1]| - 1] != '/';
    }
  }

  /** A join of non-empty parts starts with the first part's first character and ends with
      the last part's last character. */
  lemma {:induction false} JoinEnds(parts: seq<string>, sep: string)
    requires parts != [] && forall i :: 0 <= i < |parts| ==> parts[i] != ""
    ensures var j := Join(parts, sep);
      j != [] && j[0] == parts[0][0] && j[|j| - 1] == parts[|parts| - 1][|parts[|parts| - 1]| - 1]
    decreases |parts|
  {
    if |parts| > 1 {
      JoinEnds(parts[1..], sep);
    }
  }

  /** Normalising twice is normalising once. */
  lemma {:induction false} SafeRelpathIdempotent(value: string)
    requires SafeRelpath(value).Ok?
    ensures SafeRelpath(SafeRelpath(value).value) == SafeRelpath(value)
  {
    SafeRelpathFacts(value);
    var parts := Segments(value);
    var r := Join(parts, "/");
    assert SafeRelpath(value) == Ok(r);
    ReplaceCharNoop(r, '\\', '/');
    if parts != [] {
      assert LStripChar(r, '/') == r;
      DropEmptyKeepsClean(parts);
      assert DropEmpty(Split(LStripChar(ReplaceChar(r, '\\', '/'), '/'), '/')) == parts;
    }
  }

  lemma ReplaceCharNoop(s: string, from: char, to: char)
    requires from !in s
    ensures ReplaceChar(s, from, to) == s
  {
  }

  // ---------------------------------------------------------------------
  // ZIP entries

  datatype ZipEntry = ZipEntry(filename: string, data: string)

  /** What `_safe_extract_zip` does with one entry: refuse the whole archive, skip the entry,
      write it at a path below the destination, or fail on an entry with an empty name
      (`ZipInfo.is_dir` indexes its last character). */
  datatype EntryAction = Reject | Skip | WriteAt(path: seq<string>) | Fault

  /** `PurePosixPath(name).parts` for a name not starting with `/`: empty and `.` segments drop out. */
  function PathParts(name: string): (r: seq<string>)
    ensures forall i :: 0 <= i < |r| ==> r[i] != "" && r[i] != "."
    ensures forall p :: p in r <==> p in Split(name, '/') && p != "" && p != "."
  {
    DropDots(Split(name, '/'))
  }

  function DropDots(parts: seq<string>): (r: seq<string>)
    ensures forall i :: 0 <= i < |r| ==> r[i] != "" && r[i] != "."
    ensures forall p :: p in r <==> p in parts && p != "" && p != "."
  {
    if parts == [] then []
    else (if parts[0] == "" || parts[0] == "." then [] else [parts[0]]) + DropDots(parts[1..])
  }

  /** macOS resource forks and Finder metadata. */
  predicate IsJunk(name: string) {
    StartsWith(name, "__MACOSX/") || EndsWith(name, ".DS_Store")
  }

  /** A path segment that can be written below the destination. */
  predicate SafeSegment(p: string) {
    p != "" && p != "." && p != ".." && '/' !in p
  }

  predicate SafePath(path: seq<string>) {
    forall i :: 0 <= i < |path| ==> SafeSegment(path[i])
  }

  function ActionFor(e: ZipEntry): (a: EntryAction)
    ensures var name := ReplaceChar(e.filename, '\\', '/');
      && (a == Reject <==> StartsWith(name, "/") || (!IsJunk(name) && ".." in Split(name, '/')))
      && (a.WriteAt? ==> SafePath(a.path) && !IsJunk(name) && e.filename != "" && e.filename[|e.filename| - 1] != '/')
      && (a == Fault <==> e.filename == "")
  {
    var name := ReplaceChar(e.filename, '\\', '/');
    if StartsWith(name, "/") then Reject
    else if IsJunk(name) then Skip
    else if ".." in PathParts(name) then Reject
    else if e.filename == "" then Fault
    else if e.filename[|e.filename| - 1] == '/' then Skip
    else
      var path := PathParts(name);
      SplitPiecesAvoidSep(name, '/');
      assert forall i :: 0 <= i < |path| ==> path[i] in Split(name, '/');
      WriteAt(path)
  }

  /** No file path is a directory of another. */
  predicate PrefixFree(t: Tree) {
    forall k, k' :: k in t && k' in t ==> !(k < k')
  }

  predicate SafeTree(t: Tree) {
    forall k :: k in t ==> k != [] && SafePath(k)
  }

  /** Writing a file at `p` fails when `p` is a directory, or when one of its directories
      is a file. */
  predicate Clashes(t: Tree, p: seq<string>) {
    exists k :: k in t && (k < p || p < k)
  }

  /** Writing a file at a safe path that clashes with nothing keeps the tree well formed. */
  lemma AddKeepsTree(t: Tree, p: seq<string>, data: string)
    requires SafeTree(t) && PrefixFree(t)
    requires p != [] && SafePath(p) && !Clashes(t, p)
    ensures SafeTree(t[p := data]) && PrefixFree(t[p := data])
  {
  }

  /** Entry `e` writes a file. */
  predicate Writes(e: ZipEntry) {
    ActionFor(e).WriteAt?
  }

  function WritePath(e: ZipEntry): seq<string> {
    if ActionFor(e).WriteAt? then ActionFor(e).path else []
  }

  function EntryData(e: ZipEntry): string {
    e.data
  }

  /** `_safe_extract_zip` into an empty scratch directory: on success, each written path holds
      the data of the last entry that writes it, as `open(target, "wb")` overwrites. */
  function ExtractZip(entries: seq<ZipEntry>): (r: Result<Tree, Failure>)
    ensures r.Err? ==> r.error == InvalidZipEntry || r.error == ServerError
    ensures r.Ok? ==> SafeTree(r.value) && PrefixFree(r.value)
    ensures (exists i :: 0 <= i < |entries| && ActionFor(entries[i]) == Reject) ==> r.Err?
    ensures r.Ok? ==> r.value == LastWins(entries, Writes, WritePath, EntryData)
  {
    var r := ExtractInto(map[], entries);
    assert r.Ok? ==> map[] + LastWins(entries, Writes, WritePath, EntryData) == LastWins(entries, Writes, WritePath, EntryData);
    r
  }

  /** The loop over the entries from the tree `t` already written. */
  function ExtractInto(t: Tree, entries: seq<ZipEntry>): (r: Result<Tree, Failure>)
    requires SafeTree(t) && PrefixFree(t)
    ensures r.Ok? ==> SafeTree(r.value) && PrefixFree(r.value)
    ensures (exists i :: 0 <= i < |entries| && ActionFor(entries[i]) == Reject) ==> r.Err?
    ensures r.Ok? ==> r.value == t + LastWins(entries, Writes, WritePath, EntryData)
    ensures r.Err? ==> r.error == InvalidZipEntry || r.error == ServerError
    decreases |entries|
  {
    if entries == [] then Ok(t)
    else
      match ActionFor(entries[0])
      case Reject => Err(InvalidZipEntry)
      case Fault => Err(ServerError)
      case Skip =>
        ExtractSkips(t, entries);
        ExtractInto(t, entries[1..])
      case WriteAt(p) =>
        if p == [] || Clashes(t, p) then Err(ServerError)
        else
          AddKeepsTree(t, p, entries[0].data);
          ExtractWrites(t, entries);
          ExtractInto(t[p := entries[0].data], entries[1..])
  }

  /** A first entry that writes nothing leaves the rest to decide. */
  lemma ExtractSkips(t: Tree, entries: seq<ZipEntry>)
    requires entries != [] && !Writes(entries[0])
    ensures forall i :: 1 <= i < |entries| ==> entries[i] == entries[1..][i - 1]
    ensures t + LastWins(entries, Writes, WritePath, EntryData) == t + LastWins(entries[1..], Writes, WritePath, EntryData)
  {
    OverlayFirst(t, entries, Writes, WritePath, EntryData);
  }

  /** A first entry that writes is written, then the rest decide. */
  lemma ExtractWrites(t: Tree, entries: seq<ZipEntry>)
    requires entries != [] && Writes(entries[0])
    ensures var p := WritePath(entries[0]);
      t + LastWins(entries, Writes, WritePath, EntryData) == t[p := entries[0].data] + LastWins(entries[1..], Writes, WritePath, EntryData)
    ensures forall i :: 1 <= i < |entries| ==> entries[i] == entries[1..][i - 1]
  {
    OverlayFirst(t, entries, Writes, WritePath, EntryData);
  }

  /** A successful extraction holds exactly the paths some entry writes. */
  lemma ExtractedPaths(entries: seq<ZipEntry>, k: seq<string>)
    requires ExtractZip(entries).Ok?
    ensures k in ExtractZip(entries).value <==> exists i :: 0 <= i < |entries| && ActionFor(entries[i]) == WriteAt(k)
  {
    LastWinsSpec(entries, Writes, WritePath, EntryData, k);
    forall i | 0 <= i < |entries|
      ensures (Writes(entries[i]) && WritePath(entries[i]) == k) == (ActionFor(entries[i]) == WriteAt(k))
    {
    }
  }

  /** Each extracted file holds the data of the last entry that writes its path. */
  lemma ExtractedData(entries: seq<ZipEntry>, k: seq<string>)
    requires ExtractZip(entries).Ok? && k in ExtractZip(entries).value
    ensures exists j :: LastWriter(entries, j, k) && ExtractZip(entries).value[k] == entries[j].data
  {
    LastWinsSpec(entries, Writes, WritePath, EntryData, k);
    var j :| LastFor(entries, Writes, WritePath, j, k) && ExtractZip(entries).value[k] == EntryData(entries[j]);
    forall i | j < i < |entries| ensures ActionFor(entries[i]) != WriteAt(k) {
      assert !(Writes(entries[i]) && WritePath(entries[i]) == k);
    }
    assert LastWriter(entries, j, k);
  }

  /** Entry `j` is the last one that writes path `k`. */
  ghost predicate LastWriter(entries: seq<ZipEntry>, j: int, k: seq<string>) {
    && 0 <= j < |entries| && ActionFor(entries[j]) == WriteAt(k)
    && forall i :: j < i < |entries| ==> ActionFor(entries[i]) != WriteAt(k)
  }

  // ---------------------------------------------------------------------
  // Folder uploads

  datatype UploadFile = UploadFile(filename: Option<string>, data: string)

  /** The relative path `_write_upload_files` uses for the `i`-th file, before normalisation. */
  function RawPath(files: seq<UploadFile>, paths: seq<string>, i: int): string
    requires 0 <= i < |files| && (|paths| > 0 ==> |paths| == |files|)
  {
    if |paths| > 0 then paths[i]
    else match files[i].filename
      case None => ""
      case Some(name) => name
  }

  /** One file of a folder upload: the path it is written under, before cleaning, and its bytes. */
  datatype PendingFile = PendingFile(raw: string, data: string)

  /** The files of a folder upload in order, each with the path `_write_upload_files` uses. */
  function Pending(files: seq<UploadFile>, paths: seq<string>): seq<PendingFile>
    requires |paths| > 0 ==> |paths| == |files|
  {
    seq(|files|, j requires 0 <= j < |files| => PendingFile(RawPath(files, paths, j), files[j].data))
  }

  /** A file that is written out: its cleaned path is accepted, non-empty and no folder. */
  predicate Stored(f: PendingFile) {
    SafeRelpath(f.raw).Ok? && SafeRelpath(f.raw).value != "" && !EndsWith(SafeRelpath(f.raw).value, "/")
  }

  /** Where a written file lands: the parts of its cleaned path. */
  function StoredPath(f: PendingFile): seq<string> {
    if Stored(f) then PathParts(SafeRelpath(f.raw).value) else []
  }

  function StoredData(f: PendingFile): string {
    f.data
  }

  /** `_write_upload_files` into an empty scratch directory: the path list, when given, must
      match the files one to one; a `..` anywhere refuses the upload; on success each written
      path holds the bytes of the last file written there, as `open(target, "wb")` overwrites. */
  function WriteUploadFiles(files: seq<UploadFile>, paths: seq<string>): (r: Result<Tree, Failure>)
    ensures r == Err(PathsCountMismatch) <==> |paths| > 0 && |paths| != |files|
    ensures r.Err? ==> r.error in {PathsCountMismatch, InvalidUploadPath, ServerError}
    ensures r.Ok? ==> SafeTree(r.value) && PrefixFree(r.value)
    ensures r.Ok? ==> forall j :: 0 <= j < |files| ==> NoParentSegment(RawPath(files, paths, j))
    ensures r.Ok? ==>
      (|paths| > 0 ==> |paths| == |files|) && r.value == LastWins(Pending(files, paths), Stored, StoredPath, StoredData)
  {
    if |paths| > 0 && |paths| != |files| then Err(PathsCountMismatch)
    else
      WriteFromStart(files, paths);
      WriteFrom(map[], files, paths, 0)
  }

  lemma WriteFromStart(files: seq<UploadFile>, paths: seq<string>)
    requires |paths| > 0 ==> |paths| == |files|
    ensures map[] + LastWins(Pending(files, paths)[0..], Stored, StoredPath, StoredData)
      == LastWins(Pending(files, paths), Stored, StoredPath, StoredData)
  {
    assert Pending(files, paths)[0..] == Pending(files, paths);
  }

  /** A successful folder upload holds a path exactly when some file is written there. */
  lemma UploadedPaths(files: seq<UploadFile>, paths: seq<string>, k: seq<string>)
    requires WriteUploadFiles(files, paths).Ok?
    ensures |paths| > 0 ==> |paths| == |files|
    ensures k in WriteUploadFiles(files, paths).value <==>
      exists j :: 0 <= j < |files| && Stored(Pending(files, paths)[j]) && StoredPath(Pending(files, paths)[j]) == k
  {
    LastWinsSpec(Pending(files, paths), Stored, StoredPath, StoredData, k);
  }

  /** Each written file holds the bytes of the last upload file written at its path. */
  lemma UploadedData(files: seq<UploadFile>, paths: seq<string>, k: seq<string>)
    requires WriteUploadFiles(files, paths).Ok? && k in WriteUploadFiles(files, paths).value
    ensures |paths| > 0 ==> |paths| == |files|
    ensures exists j ::
      LastFor(Pending(files, paths), Stored, StoredPath, j, k) && WriteUploadFiles(files, paths).value[k] == files[j].data
  {
    LastWinsSpec(Pending(files, paths), Stored, StoredPath, StoredData, k);
  }

  /** The raw paths of the files from position `i` on hold no `..` segment. */
  predicate PathsFreeFrom(files: seq<UploadFile>, paths: seq<string>, i: nat)
    requires |paths| > 0 ==> |paths| == |files|
  {
    forall j :: i <= j < |files| ==> NoParentSegment(RawPath(files, paths, j))
  }

  lemma PathsFreeStep(files: seq<UploadFile>, paths: seq<string>, i: nat)
    requires |paths| > 0 ==> |paths| == |files|
    requires i < |files|
    ensures NoParentSegment(RawPath(files, paths, i)) && PathsFreeFrom(files, paths, i + 1) ==> PathsFreeFrom(files, paths, i)
  {
  }

  function WriteFrom(t: Tree, files: seq<UploadFile>, paths: seq<string>, i: nat): (r: Result<Tree, Failure>)
    requires |paths| > 0 ==> |paths| == |files|
    requires i <= |files| && SafeTree(t) && PrefixFree(t)
    ensures r.Err? ==> r.error == InvalidUploadPath || r.error == ServerError
    ensures r.Ok? ==> SafeTree(r.value) && PrefixFree(r.value) && t.Keys <= r.value.Keys
    ensures r.Ok? ==> PathsFreeFrom(files, paths, i)
    ensures r.Ok? ==> r.value == t + LastWins(Pending(files, paths)[i..], Stored, StoredPath, StoredData)
    decreases |files| - i
  {
    if i == |files| then
      assert t + LastWins(Pending(files, paths)[i..], Stored, StoredPath, StoredData) == t + map[];
      Ok(t)
    else
      PathsFreeStep(files, paths, i);
      WriteStep(t, files, paths, i);
      match SafeRelpath(RawPath(files, paths, i))
      case Err(e) => Err(e)
      case Ok(rel) =>
        if rel == "" || EndsWith(rel, "/") then WriteFrom(t, files, paths, i + 1)
        else
          var p := PathParts(rel);
          if p == [] || Clashes(t, p) then Err(ServerError)
          else
            WrittenPathSafe(RawPath(files, paths, i), rel);
            AddKeepsTree(t, p, files[i].data);
            WriteFrom(t[p := files[i].data], files, paths, i + 1)
  }

  /** Writing the files from `i` on is writing file `i`, if it is stored, then the rest. */
  lemma WriteStep(t: Tree, files: seq<UploadFile>, paths: seq<string>, i: nat)
    requires |paths| > 0 ==> |paths| == |files|
    requires i < |files|
    ensures Pending(files, paths)[i] == PendingFile(RawPath(files, paths, i), files[i].data)
    ensures var f := Pending(files, paths)[i];
      t + LastWins(Pending(files, paths)[i..], Stored, StoredPath, StoredData)
      == (if Stored(f) then t[StoredPath(f) := f.data] else t) + LastWins(Pending(files, paths)[i + 1..], Stored, StoredPath, StoredData)
  {
    var xs := Pending(files, paths)[i..];
    OverlayFirst(t, xs, Stored, StoredPath, StoredData);
    assert xs[1..] == Pending(files, paths)[i + 1..];
  }

  /** Every segment of a non-empty relative path `_safe_relpath` accepted can be written. */
  lemma WrittenPathSafe(v: string, rel: string)
    requires SafeRelpath(v) == Ok(rel) && rel != ""
    ensures SafePath(PathParts(rel))
  {
    var p := PathParts(rel);
    SplitPiecesAvoidSep(rel, '/');
    assert forall k :: 0 <= k < |p| ==> p[k] in Split(rel, '/');
    assert ".." !in Split(ReplaceChar(v, '\\', '/'), '/');
    assert Split(rel, '/') == Segments(v);
  }

  // ---------------------------------------------------------------------
  // Dataset root

  /** Position `i` of path `k` is a date-named folder holding an entry `trains.csv`. */
  predicate DayMarker(k: seq<string>, i: int)
    requires 0 <= i && i + 1 < |k|
  {
    IsDateDirName(k[i]) && k[i + 1] == "trains.csv"
  }

  /** Directory `d` has a date-named child folder in which `trains.csv` exists. */
  predicate HasTrainDay(t: Tree, d: seq<string>) {
    exists k :: k in t && |d| + 1 < |k| && k[..|d|] == d && DayMarker(k, |d|)
  }

  /** No path in `keys` has a date folder holding `trains.csv`. */
  ghost predicate NoDayMarker(keys: set<seq<string>>) {
    forall k, i :: k in keys && 0 <= i && i + 1 < |k| ==> !DayMarker(k, i)
  }

  /** Every date folder holding `trains.csv` on a path in `keys` is at depth `n` or deeper. */
  ghost predicate MarkersFrom(keys: set<seq<string>>, n: int) {
    forall k, i :: k in keys && 0 <= i && i + 1 < |k| && DayMarker(k, i) ==> n <= i
  }

  /** One more path, whose shallowest marker is at `i` (none when `i + 1 >= |k|`). */
  lemma DayMarkerStep(done: set<seq<string>>, k: seq<string>, i: nat)
    requires i + 1 < |k| ==> DayMarker(k, i)
    requires forall j :: 0 <= j < i && j + 1 < |k| ==> !DayMarker(k, j)
    ensures NoDayMarker(done + {k}) <==> NoDayMarker(done) && i + 1 >= |k|
    ensures forall n :: MarkersFrom(done + {k}, n) <==> MarkersFrom(done, n) && (i + 1 < |k| ==> n <= i)
  {
  }

  /** `_find_dataset_root`: a shallowest directory with a date folder holding `trains.csv`,
      or a 400 when there is none. Among equally shallow candidates the walk order decides;
      the model may return any of them. */
  method FindDatasetRoot(t: Tree) returns (r: Result<seq<string>, Failure>)
    ensures r.Err? ==> r.error == NoDatasetRoot
    ensures r.Err? <==> NoDayMarker(t.Keys)
    ensures r.Ok? ==> HasTrainDay(t, r.value)
    ensures r.Ok? ==> MarkersFrom(t.Keys, |r.value|)
  {
    var best: Option<seq<string>> := None;
    var todo := t.Keys;
    while todo != {}
      invariant todo <= t.Keys
      invariant best.None? <==> NoDayMarker(t.Keys - todo)
      invariant best.Some? ==> HasTrainDay(t, best.value) && MarkersFrom(t.Keys - todo, |best.value|)
      decreases todo
    {
      var k :| k in todo;
      var i := FirstDayMarker(k);
      DayMarkerStep(t.Keys - todo, k, i);
      if i + 1 < |k| && (best.None? || i < |best.value|) {
        assert k[..i] == k[..|k[..i]|];
        best := Some(k[..i]);
      }
      assert t.Keys - (todo - {k}) == (t.Keys - todo) + {k};
      todo := todo - {k};
    }
    if best.None? {
      r := Err(NoDatasetRoot);
    } else {
      r := Ok(best.value);
    }
  }

  /** The shallowest position of path `k` that is a date folder holding `trains.csv`, or a
      position past the last folder when there is none. */
  method FirstDayMarker(k: seq<string>) returns (i: nat)
    ensures i + 1 < |k| ==> DayMarker(k, i)
    ensures forall j :: 0 <= j < i && j + 1 < |k| ==> !DayMarker(k, j)
  {
    i := 0;
    while i + 1 < |k| && !DayMarker(k, i)
      invariant forall j :: 0 <= j < i && j + 1 < |k| ==> !DayMarker(k, j)
      decreases |k| - i
    {
      i := i + 1;
    }
  }
}
