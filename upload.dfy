/** `POST /data/upload`: the four upload modes, in the order the handler validates, archives,
    imports and writes. The request's files are values; a ZIP payload carries the entries its
    bytes decode to (or none when they are not a ZIP archive). */
module Upload {
  import opened Text
  import opened Results
  import opened Errors
  import opened Dates
  import opened Paths
  import opened DatasetStore
  import opened Seqs

  const UploadModes: set<string> := {"zip", "folder", "stations", "full", ""}

  /** An uploaded file whose bytes may be a ZIP archive. */
  datatype Payload = Payload(file: UploadFile, archive: Option<seq<ZipEntry>>)

  datatype UploadRequest = UploadRequest(
    uploadMode: Option<string>,
    precompute: bool,
    datasetName: Option<string>,
    file: Option<Payload>,
    files: seq<UploadFile>,
    paths: seq<string>,
    stationsFile: Option<UploadFile>,
    zipFile: Option<Payload>)

  /** The JSON answer: whether precomputation was scheduled, for which range, the archive the
      previous dataset went to, and (in `full` mode) the imported days and whether a stations
      file was written. */
  datatype UploadReply = UploadReply(
    precompute: bool,
    range: Option<PrecomputeRange>,
    archivedStamp: Option<string>,
    trainDates: seq<string>,
    stationsUploaded: bool)

  /** `(upload_mode or "").strip().lower()` */
  function ModeOf(raw: Option<string>): string {
    Lower(Strip(if raw.Some? then raw.value else ""))
  }

  /** `(f.filename or "").lower().endswith(ext)` */
  predicate HasExtension(filename: Option<string>, ext: string) {
    EndsWith(Lower(if filename.Some? then filename.value else ""), ext)
  }

  /** The branch of `upload_data` a request takes. */
  datatype Branch = ZipBranch | FolderBranch | StationsBranch | FullBranch

  /** The branch for a normalised mode: no mode means a ZIP when a single file was sent and
      a folder otherwise; an unknown mode is rejected. */
  function BranchFor(mode: string, singleFile: bool): (b: Option<Branch>)
    ensures b.None? <==> mode !in UploadModes
  {
    if mode == "full" then Some(FullBranch)
    else if mode == "stations" then Some(StationsBranch)
    else if mode == "zip" || (mode == "" && singleFile) then Some(ZipBranch)
    else if mode == "folder" || mode == "" then Some(FolderBranch)
    else None
  }

  function BranchOf(req: UploadRequest): Option<Branch> {
    BranchFor(ModeOf(req.uploadMode), req.file.Some?)
  }

  /** The requests that import a dataset tree. */
  predicate Imports(b: Branch, withZip: bool) {
    b == ZipBranch || b == FolderBranch || (b == FullBranch && withZip)
  }

  /** Reading and extracting an uploaded ZIP; bytes that are not a ZIP archive raise an error
      the handler does not catch. */
  function ZipTree(p: Payload): (r: Result<Tree, Failure>)
    ensures p.archive.None? ==> r == Err(ServerError)
    ensures r.Err? ==> r.error == InvalidZipEntry || r.error == ServerError
    ensures r.Ok? ==> SafeTree(r.value) && PrefixFree(r.value)
  {
    if p.archive.None? then Err(ServerError) else ExtractZip(p.archive.value)
  }

  /** The files of a folder upload written out under their relative paths. */
  function FolderTree(req: UploadRequest): (r: Result<Tree, Failure>)
    ensures r.Err? ==> r.error in {PathsCountMismatch, InvalidUploadPath, ServerError}
    ensures r.Ok? ==> SafeTree(r.value) && PrefixFree(r.value)
    ensures r.Ok? ==> (|req.paths| > 0 ==> |req.paths| == |req.files|)
    ensures r.Ok? ==> r.value == LastWins(Pending(req.files, req.paths), Stored, StoredPath, StoredData)
  {
    WriteUploadFiles(req.files, req.paths)
  }

  /** The tree an importing upload unpacks: the ZIP of `full` or `zip` mode, else the folder files. */
  function UploadTree(b: Branch, req: UploadRequest): Result<Tree, Failure> {
    match b
    case FullBranch => if req.zipFile.Some? then ZipTree(req.zipFile.value) else Err(NothingUploaded)
    case ZipBranch => if req.file.Some? then ZipTree(req.file.value) else Err(MissingUploadFile)
    case _ => FolderTree(req)
  }

  lemma UploadTreeCases(req: UploadRequest)
    ensures req.zipFile.Some? ==> UploadTree(FullBranch, req) == ZipTree(req.zipFile.value)
    ensures req.file.Some? ==> UploadTree(ZipBranch, req) == ZipTree(req.file.value)
    ensures UploadTree(FolderBranch, req) == FolderTree(req)
  {
  }

  /** No directory of `t` has a date folder holding `trains.csv`. */
  predicate NoRoot(t: Tree) {
    forall k, i :: k in t && 0 <= i && i + 1 < |k| ==> !DayMarker(k, i)
  }

  /** `root` is a shallowest directory of `t` with a date folder holding `trains.csv`. */
  predicate IsRootOf(t: Tree, root: seq<string>) {
    HasTrainDay(t, root) && forall k, i :: k in t && 0 <= i && i + 1 < |k| && DayMarker(k, i) ==> |root| <= i
  }

  /** The data directory after archiving the live dataset under `stamp` and importing `root`. */
  function ImportInto(st: Store, t: Tree, root: seq<string>, stamp: string): Store {
    var st1 := Archive(st, stamp).0;
    st1.(live := WithOutputs(st1.live + Imported(t, root)))
  }

  /** `after` is `before` with its dataset archived under `stamp`, the dataset root `root` of
      `t` imported, and the dataset name recorded. */
  ghost predicate ImportedThenNamed(before: Store, after: Store, t: Tree, root: seq<string>, stamp: string, name: Option<string>) {
    var imported := ImportInto(before, t, root, stamp);
    IsRootOf(t, root) && after == imported.(live := MetaWritten(imported.live, name))
  }

  /** The date folder that made `root` a dataset root is imported as a date folder, so the new
      live dataset always has a date range. */
  lemma ImportHasDateFolder(l: Listing, t: Tree, root: seq<string>)
    requires PrefixFree(t) && HasTrainDay(t, root)
    ensures !NoDateFolder(WithOutputs(l + Imported(t, root)))
  {
    var c := DayFolderChild(t, root);
    var entries := ChildEntries(t, root);
    assert c in Pick(entries, entries.Keys, Importable);
    var l' := WithOutputs(l + Imported(t, root));
    assert c != OutputsName;
    assert c in l' && l'[c] == entries[c];
  }

  /** The date folder below `root` that holds `trains.csv` is a folder entry of `root`. */
  lemma DayFolderChild(t: Tree, root: seq<string>) returns (c: string)
    requires PrefixFree(t) && HasTrainDay(t, root)
    ensures c in ChildEntries(t, root) && IsDateFolder(c, ChildEntries(t, root)[c])
  {
    var k :| k in t && |root| + 1 < |k| && k[..|root|] == root && DayMarker(k, |root|);
    c := k[|root|];
    var p := root + [c];
    assert p == k[..|root| + 1];
    assert c in Children(t, root);
    assert p < k;
  }

  /** Writing a file whose name is not a date keeps every date folder. */
  lemma WriteKeepsDateFolder(l: Listing, n: string, v: Item)
    requires !NoDateFolder(l) && !IsDateDirName(n)
    ensures !NoDateFolder(l[n := v])
  {
    var m :| m in l && IsDateFolder(m, l[m]);
    assert m != n;
    assert m in l[n := v] && IsDateFolder(m, l[n := v][m]);
  }

  lemma MetaKeepsDateFolder(l: Listing, name: Option<string>)
    requires !NoDateFolder(l)
    ensures !NoDateFolder(MetaWritten(l, name))
  {
    FixedNamesAreNotDates();
    if name.Some? && name.value != "" && !(MetaFileName in l && l[MetaFileName].Folder?) {
      WriteKeepsDateFolder(l, MetaFileName, File(Strip(name.value)));
    }
  }

  /** Find the dataset root of an unpacked upload, archive the live dataset and copy the root in. */
  method ImportTree(d: DataDir, t: Tree, stamp: string) returns (r: Result<Option<string>, Failure>)
    requires d.Valid() && PrefixFree(t)
    modifies d
    ensures d.Valid()
    ensures r.Err? ==> r.error == NoDatasetRoot && NoRoot(t)
    ensures r.Err? ==> d.State() == old(d.State()) && d.stationsCached == old(d.stationsCached)
    ensures r.Ok? ==> !NoRoot(t) && !d.stationsCached && r.value == Archive(old(d.State()), stamp).1
    ensures r.Ok? ==> exists root :: IsRootOf(t, root) && d.State() == ImportInto(old(d.State()), t, root, stamp)
    ensures r.Ok? ==> !NoDateFolder(d.live)
  {
    var root := FindDatasetRoot(t);
    if root.Err? {
      return Err(root.error);
    }
    ghost var st := d.State();
    StoreOkPreserved(st, stamp);
    var moved := d.ArchiveExistingDataset(stamp);
    d.CopyDatasetIntoWebapp(t, root.value);
    ImportHasDateFolder(Archive(st, stamp).0.live, t, root.value);
    assert IsRootOf(t, root.value);
    r := Ok(moved);
  }

  /** `stations` mode: write `stations.csv` and the dataset name; nothing is archived. */
  method UploadStations(d: DataDir, req: UploadRequest) returns (r: Result<UploadReply, Failure>)
    requires d.Valid()
    modifies d
    ensures d.Valid() && d.archives == old(d.archives) && d.dflt == old(d.dflt)
    ensures req.file.None? ==> r == Err(MissingUploadFile)
    ensures req.file.Some? && !HasExtension(req.file.value.file.filename, ".csv") ==> r == Err(CsvRequired)
    ensures r.Err? && r.error != ServerError ==> d.State() == old(d.State())
    ensures r.Ok? ==> req.file.Some? && HasExtension(req.file.value.file.filename, ".csv")
    ensures r.Ok? ==> r.value == UploadReply(false, None, None, [], false) && !d.stationsCached
    ensures r.Ok? ==> d.State() == old(d.State()).(live := MetaWritten(old(d.live)[StationsCsv := File(req.file.value.file.data)], req.datasetName))
    ensures r.Err? ==> r.error in {MissingUploadFile, CsvRequired, ServerError}
  {
    if req.file.None? {
      return Err(MissingUploadFile);
    }
    var f := req.file.value.file;
    if !HasExtension(f.filename, ".csv") {
      return Err(CsvRequired);
    }
    var ok := d.WriteStationsFile(f.data);
    if !ok {
      return Err(ServerError);
    }
    d.stationsCached := false;
    d.WriteDatasetMeta(req.datasetName);
    r := Ok(UploadReply(false, None, None, [], false));
  }

  /** The precompute range of an import, which always exists because the import brought a
      date folder in. */
  method PrecomputeAfterImport(d: DataDir, wanted: bool) returns (range: Option<PrecomputeRange>)
    requires !NoDateFolder(d.live)
    ensures range.Some? <==> wanted
    ensures range.Some? ==> RangeOf(d.live, range.value)
  {
    range := None;
    if wanted {
      var picked := d.PickPrecomputeRange();
      range := Some(picked.value);
    }
  }

  /** `zip` mode, and the default mode when a single file is sent. */
  method UploadZip(d: DataDir, req: UploadRequest, stamp: string) returns (r: Result<UploadReply, Failure>)
    requires d.Valid()
    modifies d
    ensures d.Valid() && d.dflt == old(d.dflt)
    ensures req.file.None? ==> r == Err(MissingUploadFile)
    ensures req.file.Some? && !HasExtension(req.file.value.file.filename, ".zip") ==> r == Err(ZipRequired)
    ensures r.Err? ==> d.State() == old(d.State())
    ensures r.Ok? ==> req.file.Some? && ZipTree(req.file.value).Ok?
    ensures r.Ok? ==> r.value.archivedStamp == Archive(old(d.State()), stamp).1 && !d.stationsCached
    ensures r.Ok? ==> r.value.precompute == req.precompute && r.value.trainDates == [] && !r.value.stationsUploaded
    ensures r.Ok? ==> exists root :: ImportedThenNamed(old(d.State()), d.State(), ZipTree(req.file.value).value, root, stamp, req.datasetName)
    ensures r.Ok? ==> (r.value.range.Some? <==> req.precompute)
    ensures r.Ok? && r.value.range.Some? ==> RangeOf(d.live, r.value.range.value)
    ensures r.Err? ==> r.error in {MissingUploadFile, ZipRequired, InvalidZipEntry, ServerError, NoDatasetRoot}
  {
    if req.file.None? {
      return Err(MissingUploadFile);
    }
    var p := req.file.value;
    if !HasExtension(p.file.filename, ".zip") {
      return Err(ZipRequired);
    }
    var t := ZipTree(p);
    if t.Err? {
      return Err(t.error);
    }
    var imported := ImportTree(d, t.value, stamp);
    if imported.Err? {
      return Err(imported.error);
    }
    ghost var root :| IsRootOf(t.value, root) && d.State() == ImportInto(old(d.State()), t.value, root, stamp);
    MetaKeepsDateFolder(d.live, req.datasetName);
    d.WriteDatasetMeta(req.datasetName);
    assert ImportedThenNamed(old(d.State()), d.State(), t.value, root, stamp, req.datasetName);
    var range := PrecomputeAfterImport(d, req.precompute);
    r := Ok(UploadReply(req.precompute, range, imported.value, [], false));
  }

  /** `folder` mode, and the default mode without a single file: the files are written under
      their paths, then imported like an unpacked ZIP. */
  method UploadFolder(d: DataDir, req: UploadRequest, stamp: string) returns (r: Result<UploadReply, Failure>)
    requires d.Valid()
    modifies d
    ensures d.Valid() && d.dflt == old(d.dflt)
    ensures req.files == [] ==> r == Err(MissingUploadFiles)
    ensures req.files != [] && FolderTree(req).Err? ==> r == Err(FolderTree(req).error)
    ensures r.Err? ==> d.State() == old(d.State())
    ensures r.Ok? ==> req.files != [] && FolderTree(req).Ok?
    ensures r.Ok? ==> r.value.archivedStamp == Archive(old(d.State()), stamp).1 && !d.stationsCached
    ensures r.Ok? ==> r.value.precompute == req.precompute && r.value.trainDates == [] && !r.value.stationsUploaded
    ensures r.Ok? ==> exists root :: ImportedThenNamed(old(d.State()), d.State(), FolderTree(req).value, root, stamp, req.datasetName)
    ensures r.Ok? ==> (r.value.range.Some? <==> req.precompute)
    ensures r.Ok? && r.value.range.Some? ==> RangeOf(d.live, r.value.range.value)
    ensures r.Err? ==> r.error in {MissingUploadFiles, PathsCountMismatch, InvalidUploadPath, ServerError, NoDatasetRoot}
  {
    if req.files == [] {
      return Err(MissingUploadFiles);
    }
    var t := FolderTree(req);
    if t.Err? {
      return Err(t.error);
    }
    var imported := ImportTree(d, t.value, stamp);
    if imported.Err? {
      return Err(imported.error);
    }
    ghost var root :| IsRootOf(t.value, root) && d.State() == ImportInto(old(d.State()), t.value, root, stamp);
    MetaKeepsDateFolder(d.live, req.datasetName);
    d.WriteDatasetMeta(req.datasetName);
    assert ImportedThenNamed(old(d.State()), d.State(), t.value, root, stamp, req.datasetName);
    var range := PrecomputeAfterImport(d, req.precompute);
    r := Ok(UploadReply(req.precompute, range, imported.value, [], false));
  }

  /** The live listing once the optional stations file is written. */
  function WithStations(l: Listing, stations: Option<UploadFile>): (r: Listing)
    ensures stations.None? ==> r == l
    ensures stations.Some? ==> StationsCsv in r && r[StationsCsv] == File(stations.value.data)
    ensures forall n :: n in l && n != StationsCsv ==> n in r && r[n] == l[n]
    ensures r.Keys <= l.Keys + {StationsCsv}
  {
    if stations.Some? then l[StationsCsv := File(stations.value.data)] else l
  }

  /** The date folders of a listing. */
  function DateFolders(l: Listing): set<string> {
    set n | n in l && IsDateFolder(n, l[n])
  }

  /** Writing the stations file and the dataset name leaves the date folders as they are. */
  lemma WritesKeepDateFolders(l: Listing, stations: Option<UploadFile>, name: Option<string>)
    ensures DateFolders(MetaWritten(WithStations(l, stations), name)) == DateFolders(l)
  {
    FixedNamesAreNotDates();
  }

  /** `after` is `before` with its dataset archived under `stamp`, the dataset root `root` of
      `t` imported, the stations file (if any) written over it and the dataset name recorded. */
  ghost predicate FullImported(before: Store, after: Store, t: Tree, root: seq<string>, stamp: string, req: UploadRequest) {
    var imported := ImportInto(before, t, root, stamp);
    IsRootOf(t, root) && after == imported.(live := MetaWritten(WithStations(imported.live, req.stationsFile), req.datasetName))
  }

  /** The ZIP stage of `full` mode: check the name, unpack, import, and list the imported days. */
  method ImportFullZip(d: DataDir, p: Payload, stamp: string) returns (r: Result<(Option<string>, seq<string>), Failure>)
    requires d.Valid()
    modifies d
    ensures d.Valid() && d.dflt == old(d.dflt)
    ensures !HasExtension(p.file.filename, ".zip") ==> r == Err(ZipRequired)
    ensures r.Err? ==> r.error in {ZipRequired, InvalidZipEntry, ServerError, NoDatasetRoot} && d.State() == old(d.State())
    ensures r.Ok? ==> ZipTree(p).Ok? && exists root :: IsRootOf(ZipTree(p).value, root) && d.State() == ImportInto(old(d.State()), ZipTree(p).value, root, stamp)
    ensures r.Ok? ==> r.value.0 == Archive(old(d.State()), stamp).1 && !d.stationsCached && !NoDateFolder(d.live)
    ensures r.Ok? ==> StrictlySorted(r.value.1) && forall n :: n in r.value.1 <==> n in DateFolders(d.live)
  {
    if !HasExtension(p.file.filename, ".zip") {
      return Err(ZipRequired);
    }
    var unpacked := ZipTree(p);
    if unpacked.Err? {
      return Err(unpacked.error);
    }
    var imported := ImportTree(d, unpacked.value, stamp);
    if imported.Err? {
      return Err(imported.error);
    }
    var days := d.DateFolderNames();
    r := Ok((imported.value, days));
  }

  /** `full` mode: an optional ZIP (imported first) and an optional stations file (written
      after, so it stays active). The stations file is checked only after the ZIP has been
      imported, so a `.csv` error can follow a completed import. */
  method UploadFull(d: DataDir, req: UploadRequest, stamp: string) returns (r: Result<UploadReply, Failure>)
    requires d.Valid()
    modifies d
    ensures d.Valid() && d.dflt == old(d.dflt)
    ensures req.zipFile.Some? && !HasExtension(req.zipFile.value.file.filename, ".zip") ==> r == Err(ZipRequired)
    ensures req.zipFile.None? && req.stationsFile.None? ==> r == Err(NothingUploaded)
    ensures req.stationsFile.Some? && !HasExtension(req.stationsFile.value.filename, ".csv") ==> r.Err?
    ensures r == Err(CsvRequired) ==> req.stationsFile.Some? && !HasExtension(req.stationsFile.value.filename, ".csv")
    ensures r == Err(CsvRequired) && req.zipFile.Some? ==> ZipTree(req.zipFile.value).Ok? && exists root ::
      IsRootOf(ZipTree(req.zipFile.value).value, root) && d.State() == ImportInto(old(d.State()), ZipTree(req.zipFile.value).value, root, stamp)
    ensures r.Err? && r.error != ServerError && !(req.zipFile.Some? && r.error == CsvRequired) ==> d.State() == old(d.State())
    ensures r.Ok? ==> !d.stationsCached && r.value.stationsUploaded == req.stationsFile.Some?
    ensures r.Ok? ==> r.value.precompute == (req.precompute && req.zipFile.Some?)
    ensures r.Ok? ==> r.value.archivedStamp == if req.zipFile.Some? then Archive(old(d.State()), stamp).1 else None
    ensures r.Ok? && req.zipFile.None? ==>
      && req.stationsFile.Some?
      && d.State() == old(d.State()).(live := MetaWritten(WithStations(old(d.live), req.stationsFile), req.datasetName))
    ensures r.Ok? && req.zipFile.Some? ==> ZipTree(req.zipFile.value).Ok? && exists root :: FullImported(old(d.State()), d.State(), ZipTree(req.zipFile.value).value, root, stamp, req)
    ensures r.Ok? ==> StrictlySorted(r.value.trainDates)
    ensures r.Ok? ==> forall n :: n in r.value.trainDates <==> req.zipFile.Some? && n in DateFolders(d.live)
    ensures r.Ok? ==> (r.value.range.Some? <==> req.precompute && req.zipFile.Some?)
    ensures r.Ok? && r.value.range.Some? ==> RangeOf(d.live, r.value.range.value)
    ensures r.Err? ==> r.error in {ZipRequired, InvalidZipEntry, ServerError, NoDatasetRoot, CsvRequired, NothingUploaded}
  {
    var archived: Option<string> := None;
    var trainDates: seq<string> := [];
    ghost var root: seq<string> := [];
    ghost var t: Tree := map[];
    if req.zipFile.Some? {
      var imported := ImportFullZip(d, req.zipFile.value, stamp);
      if imported.Err? {
        return Err(imported.error);
      }
      t := ZipTree(req.zipFile.value).value;
      root :| IsRootOf(t, root) && d.State() == ImportInto(old(d.State()), t, root, stamp);
      archived, trainDates := imported.value.0, imported.value.1;
    }
    ghost var afterZip := d.live;
    if req.stationsFile.Some? {
      if !HasExtension(req.stationsFile.value.filename, ".csv") {
        return Err(CsvRequired);
      }
      var ok := d.WriteStationsFile(req.stationsFile.value.data);
      if !ok {
        return Err(ServerError);
      }
      if req.zipFile.Some? {
        FixedNamesAreNotDates();
        WriteKeepsDateFolder(afterZip, StationsCsv, File(req.stationsFile.value.data));
      }
    }
    if req.stationsFile.None? && req.zipFile.None? {
      return Err(NothingUploaded);
    }
    if req.stationsFile.Some? && req.zipFile.None? {
      d.stationsCached := false;
    }
    assert d.live == WithStations(afterZip, req.stationsFile);
    if req.zipFile.Some? {
      MetaKeepsDateFolder(d.live, req.datasetName);
    }
    d.WriteDatasetMeta(req.datasetName);
    WritesKeepDateFolders(afterZip, req.stationsFile, req.datasetName);
    if req.zipFile.Some? {
      assert FullImported(old(d.State()), d.State(), t, root, stamp, req);
    }
    var range := None;
    if req.precompute && req.zipFile.Some? {
      range := PrecomputeAfterImport(d, true);
    }
    r := Ok(UploadReply(req.precompute && req.zipFile.Some?, range, archived, trainDates, req.stationsFile.Some?));
  }

  /** A 400 answer that leaves the live dataset and the archives as they were: every validation
      error except a `.csv` check that `full` mode makes after its ZIP import. */
  predicate CleanRejection(b: Branch, withZip: bool, r: Result<UploadReply, Failure>) {
    && r.Err?
    && Status(r.error) == 400
    && !(b == FullBranch && withZip && r.error == CsvRequired)
  }

  /** The data directory a successful upload in mode `b` leaves: `stations` mode writes the
      stations file and the dataset name over the live dataset; the ZIP and folder imports
      archive the live dataset and bring in the dataset root of `tree`, then record the name;
      `full` mode does the import when it has a ZIP and then writes the stations file, or
      writes only the stations file and the name without one. */
  ghost predicate NewState(req: UploadRequest, b: Branch, tree: Result<Tree, Failure>, stamp: string, st: Store, after: Store) {
    match b
    case StationsBranch =>
      && req.file.Some?
      && after == st.(live := MetaWritten(st.live[StationsCsv := File(req.file.value.file.data)], req.datasetName))
    case ZipBranch => tree.Ok? && exists root :: ImportedThenNamed(st, after, tree.value, root, stamp, req.datasetName)
    case FolderBranch => tree.Ok? && exists root :: ImportedThenNamed(st, after, tree.value, root, stamp, req.datasetName)
    case FullBranch =>
      if req.zipFile.Some? then tree.Ok? && exists root :: FullImported(st, after, tree.value, root, stamp, req)
      else
        && req.stationsFile.Some?
        && after == st.(live := MetaWritten(WithStations(st.live, req.stationsFile), req.datasetName))
  }

  /** What every branch of `upload_data` promises, from the data directory `st` it starts with
      to `after` with `cached` station caches and answer `r`: clean rejections change nothing;
      a success leaves the new state of its mode; successful imports archive the previous
      dataset under `stamp` and, when asked to, report the precompute range of the new
      dataset; `stations` mode never archives; the `_default` snapshot is never touched. */
  ghost predicate Outcome(req: UploadRequest, b: Branch, tree: Result<Tree, Failure>, stamp: string,
                          st: Store, after: Store, cached: bool, r: Result<UploadReply, Failure>) {
    && r != Err(BadUploadMode)
    && after.dflt == st.dflt
    && (CleanRejection(b, req.zipFile.Some?, r) ==> after.live == st.live && after.archives == st.archives)
    && (r.Ok? ==> !cached && NewState(req, b, tree, stamp, st, after))
    && (r.Ok? && Imports(b, req.zipFile.Some?) ==>
      && r.value.archivedStamp == Archive(st, stamp).1
      && after.archives == Archive(st, stamp).0.archives
      && tree.Ok?
      && (exists root :: IsRootOf(tree.value, root))
      && (r.value.range.Some? <==> req.precompute))
    && (r.Ok? && r.value.range.Some? ==> Imports(b, req.zipFile.Some?) && RangeOf(after.live, r.value.range.value))
    && (r.Ok? && b == StationsBranch ==> after.archives == st.archives && r.value.archivedStamp == None)
  }

  lemma StationsOutcome(req: UploadRequest, stamp: string, st: Store, after: Store, cached: bool, r: Result<UploadReply, Failure>)
    requires after.dflt == st.dflt && after.archives == st.archives
    requires r.Err? ==> r.error in {MissingUploadFile, CsvRequired, ServerError}
    requires r.Err? && r.error != ServerError ==> after == st
    requires r.Ok? ==> r.value == UploadReply(false, None, None, [], false) && !cached
    requires r.Ok? ==> req.file.Some? && after == st.(live := MetaWritten(st.live[StationsCsv := File(req.file.value.file.data)], req.datasetName))
    ensures Outcome(req, StationsBranch, UploadTree(StationsBranch, req), stamp, st, after, cached, r)
  {
  }

  lemma ZipOutcome(req: UploadRequest, stamp: string, st: Store, after: Store, cached: bool, r: Result<UploadReply, Failure>)
    requires after.dflt == st.dflt
    requires r.Err? ==> r.error in {MissingUploadFile, ZipRequired, InvalidZipEntry, ServerError, NoDatasetRoot}
    requires r.Err? ==> after == st
    requires r.Ok? ==> req.file.Some? && ZipTree(req.file.value).Ok?
    requires r.Ok? ==> r.value.archivedStamp == Archive(st, stamp).1 && !cached
    requires r.Ok? ==> exists root :: ImportedThenNamed(st, after, ZipTree(req.file.value).value, root, stamp, req.datasetName)
    requires r.Ok? ==> (r.value.range.Some? <==> req.precompute)
    requires r.Ok? && r.value.range.Some? ==> RangeOf(after.live, r.value.range.value)
    ensures Outcome(req, ZipBranch, UploadTree(ZipBranch, req), stamp, st, after, cached, r)
  {
    if r.Ok? {
      var root :| ImportedThenNamed(st, after, ZipTree(req.file.value).value, root, stamp, req.datasetName);
      UploadTreeCases(req);
      assert IsRootOf(UploadTree(ZipBranch, req).value, root);
    }
  }

  lemma FolderOutcome(req: UploadRequest, stamp: string, st: Store, after: Store, cached: bool, r: Result<UploadReply, Failure>)
    requires after.dflt == st.dflt
    requires r.Err? ==> r.error in {MissingUploadFiles, PathsCountMismatch, InvalidUploadPath, ServerError, NoDatasetRoot}
    requires r.Err? ==> after == st
    requires r.Ok? ==> FolderTree(req).Ok?
    requires r.Ok? ==> r.value.archivedStamp == Archive(st, stamp).1 && !cached
    requires r.Ok? ==> exists root :: ImportedThenNamed(st, after, FolderTree(req).value, root, stamp, req.datasetName)
    requires r.Ok? ==> (r.value.range.Some? <==> req.precompute)
    requires r.Ok? && r.value.range.Some? ==> RangeOf(after.live, r.value.range.value)
    ensures Outcome(req, FolderBranch, UploadTree(FolderBranch, req), stamp, st, after, cached, r)
  {
    if r.Ok? {
      var root :| ImportedThenNamed(st, after, FolderTree(req).value, root, stamp, req.datasetName);
      UploadTreeCases(req);
      assert IsRootOf(UploadTree(FolderBranch, req).value, root);
    }
  }

  lemma FullOutcome(req: UploadRequest, stamp: string, st: Store, after: Store, cached: bool, r: Result<UploadReply, Failure>)
    requires after.dflt == st.dflt
    requires r.Err? ==> r.error in {ZipRequired, InvalidZipEntry, ServerError, NoDatasetRoot, CsvRequired, NothingUploaded}
    requires r.Err? && r.error != ServerError && !(req.zipFile.Some? && r.error == CsvRequired) ==> after == st
    requires r.Ok? ==> !cached
    requires r.Ok? ==> r.value.archivedStamp == if req.zipFile.Some? then Archive(st, stamp).1 else None
    requires r.Ok? && req.zipFile.None? ==>
      req.stationsFile.Some? && after == st.(live := MetaWritten(WithStations(st.live, req.stationsFile), req.datasetName))
    requires r.Ok? && req.zipFile.Some? ==> ZipTree(req.zipFile.value).Ok?
    requires r.Ok? && req.zipFile.Some? ==> exists root :: FullImported(st, after, ZipTree(req.zipFile.value).value, root, stamp, req)
    requires r.Ok? ==> (r.value.range.Some? <==> req.precompute && req.zipFile.Some?)
    requires r.Ok? && r.value.range.Some? ==> RangeOf(after.live, r.value.range.value)
    ensures Outcome(req, FullBranch, UploadTree(FullBranch, req), stamp, st, after, cached, r)
  {
    if r.Ok? && req.zipFile.Some? {
      var root :| FullImported(st, after, ZipTree(req.zipFile.value).value, root, stamp, req);
      UploadTreeCases(req);
      assert IsRootOf(UploadTree(FullBranch, req).value, root);
    }
  }

  /** `upload_data`: the mode is checked first; then `_default` is seeded and the mode's branch
      runs. */
  method UploadData(d: DataDir, req: UploadRequest, stamp: string) returns (r: Result<UploadReply, Failure>)
    requires d.Valid()
    modifies d
    ensures d.Valid()
    ensures BranchOf(req).None? ==> r == Err(BadUploadMode) && d.State() == old(d.State())
    ensures BranchOf(req).Some? ==>
      Outcome(req, BranchOf(req).value, UploadTree(BranchOf(req).value, req), stamp, EnsureDefault(old(d.State())), d.State(), d.stationsCached, r)
  {
    var branch := BranchOf(req);
    if branch.None? {
      return Err(BadUploadMode);
    }
    StoreOkPreserved(d.State(), stamp);
    d.EnsureDefaultDataset();
    r := RunBranch(d, req, branch.value, stamp);
  }

  /** The branch of `upload_data` for mode `b`, after `_default` is seeded. */
  method RunBranch(d: DataDir, req: UploadRequest, b: Branch, stamp: string) returns (r: Result<UploadReply, Failure>)
    requires d.Valid()
    modifies d
    ensures d.Valid()
    ensures Outcome(req, b, UploadTree(b, req), stamp, old(d.State()), d.State(), d.stationsCached, r)
  {
    match b
    case FullBranch =>
      r := UploadFull(d, req, stamp);
      FullOutcome(req, stamp, old(d.State()), d.State(), d.stationsCached, r);
    case StationsBranch =>
      r := UploadStations(d, req);
      StationsOutcome(req, stamp, old(d.State()), d.State(), d.stationsCached, r);
    case ZipBranch =>
      r := UploadZip(d, req, stamp);
      ZipOutcome(req, stamp, old(d.State()), d.State(), d.stationsCached, r);
    case FolderBranch =>
      r := UploadFolder(d, req, stamp);
      FolderOutcome(req, stamp, old(d.State()), d.State(), d.stationsCached, r);
  }
}
