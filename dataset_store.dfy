/**
  The dataset directory of the web backend and its archive lifecycle.

  The live dataset is the directory `webapp/data`: date folders `YYYY-MM-DD/` holding
  `trains.csv`, the station files, an optional `dataset.meta.json` and the `outputs/`
  folder of precomputed results. Two reserved sub-directories sit beside them: `_default`
  (a snapshot of the dataset first seen, kept for good) and `_archive/<stamp>/` (one
  backup per replacement, named by a UTC time stamp).

  The store is modelled as a value `Store` with one specification function per lifecycle
  operation, and as the class `DataDir` whose methods perform the operations entry by
  entry, as the handlers do, and are proved to produce the specification's new state.
 */
module DatasetStore {
  import opened Text
  import opened Results
  import opened Errors
  import opened Dates
  import opened Paths

  /** One directory entry: a file with its bytes, or a folder given by the files below it. */
  datatype Item = File(data: string) | Folder(files: Tree)

  /** A directory's entries by name. */
  type Listing = map<string, Item>

  const StationFileNames: set<string> := {"stations.csv", "stations.clean.csv", "stations.geojson"}
  const StationsCsv := "stations.csv"
  const MetaFileName := "dataset.meta.json"
  const OutputsName := "outputs"
  const RuntimeName := "runtime"
  const ArchiveRootName := "_archive"
  const DefaultDirName := "_default"
  const DefaultStamp := "_default"
  const CurrentStamp := "_current"

  /** Names starting with `_` are never moved or copied as dataset content. */
  predicate Hidden(name: string) {
    StartsWith(name, "_")
  }

  predicate IsDateFolder(name: string, item: Item) {
    item.Folder? && IsDateDirName(name)
  }

  predicate IsStationFile(name: string, item: Item) {
    item.File? && name in StationFileNames
  }

  predicate IsMetaFile(name: string, item: Item) {
    item.File? && name == MetaFileName
  }

  /** The entries `_archive_existing_dataset` moves out of the live directory. */
  predicate Archivable(name: string, item: Item) {
    !Hidden(name) && (IsDateFolder(name, item) || IsStationFile(name, item) || IsMetaFile(name, item) || name == OutputsName)
  }

  /** The entries `_copy_dataset_contents` copies (an `outputs` entry only when it is a folder). */
  predicate Copyable(name: string, item: Item) {
    !Hidden(name) && (IsDateFolder(name, item) || IsStationFile(name, item) || IsMetaFile(name, item) || (item.Folder? && name == OutputsName))
  }

  /** `_dataset_has_content`: some station file name exists (of any kind), or a date folder does. */
  predicate HasContent(l: Listing) {
    (exists n :: n in StationFileNames && n in l) || (exists n :: n in l && IsDateFolder(n, l[n]))
  }

  function ArchivedPart(l: Listing): Listing {
    map n | n in l && Archivable(n, l[n]) :: l[n]
  }

  function CopyContents(src: Listing): Listing {
    map n | n in src && Copyable(n, src[n]) :: src[n]
  }

  /** Neither reserved directory appears as an entry of a snapshot. */
  predicate ReservedFree(l: Listing) {
    ArchiveRootName !in l && DefaultDirName !in l
  }

  /** The data directory: live entries, the `_default` snapshot, the archives under `_archive`
      by stamp, and whether `_archive` itself exists. */
  datatype Store = Store(live: Listing, dflt: Listing, archives: map<string, Listing>, archiveRoot: bool)

  predicate StoreOk(st: Store) {
    && ReservedFree(st.live)
    && ReservedFree(st.dflt)
    && (forall a :: a in st.archives ==> ReservedFree(st.archives[a]))
    && (st.archives != map[] ==> st.archiveRoot)
  }

  function ArchiveAt(archives: map<string, Listing>, stamp: string): Listing {
    if stamp in archives then archives[stamp] else map[]
  }

  /** None of the fixed file and folder names is a date. */
  lemma FixedNamesAreNotDates()
    ensures !IsDateDirName(StationsCsv) && !IsDateDirName(MetaFileName) && !IsDateDirName(OutputsName)
    ensures !IsDateDirName(ArchiveRootName) && !IsDateDirName(DefaultDirName)
  {
    assert |StationsCsv| != 10 && |MetaFileName| != 10 && |OutputsName| != 10;
    assert |ArchiveRootName| != 10 && |DefaultDirName| != 10;
  }

  /** `_archive_existing_dataset` with time stamp `stamp`: `_archive` is created, the archivable
      entries move to `_archive/<stamp>`, and the stamp is returned when something moved. */
  function Archive(st: Store, stamp: string): (Store, Option<string>) {
    var moved := ArchivedPart(st.live);
    if moved == map[] then (st.(archiveRoot := true), None)
    else
      (st.(live := st.live - moved.Keys,
           archives := st.archives[stamp := ArchiveAt(st.archives, stamp) + moved],
           archiveRoot := true),
       Some(stamp))
  }

  /** `_clear_current_dataset`: every live entry goes; `_archive` and `_default` stay. */
  function Clear(st: Store): Store {
    st.(live := map[])
  }

  /** `_ensure_default_dataset`: snapshot the live dataset into `_default` the first time
      there is live content and `_default` has none. */
  function EnsureDefault(st: Store): Store {
    if HasContent(st.dflt) || !HasContent(st.live) then st
    else st.(dflt := st.dflt + CopyContents(st.live))
  }

  /** The dataset a revert or apply copies from. */
  datatype Source = DefaultSource | ArchiveSource(stamp: string)

  function ContentOf(st: Store, src: Source): Listing {
    match src
    case DefaultSource => st.dflt
    case ArchiveSource(a) => ArchiveAt(st.archives, a)
  }

  /** The target checks of `_restore_archive`, in the source's order. With no stamp (or an
      empty one) the name-last archive is chosen. */
  ghost function ResolveRestore(st: Store, stamp: Option<string>): (r: Result<Source, Failure>)
    ensures r.Ok? && r.value.DefaultSource? ==> stamp == Some(DefaultStamp) && HasContent(st.dflt)
    ensures r.Ok? && r.value.ArchiveSource? ==> r.value.stamp in st.archives && stamp != Some(CurrentStamp)
    ensures stamp == Some(CurrentStamp) ==> r == Err(CurrentAlreadyActive)
    ensures stamp != Some(DefaultStamp) && st.archives == map[] ==> r.Err?
  {
    if stamp == Some(DefaultStamp) then
      if HasContent(st.dflt) then Ok(DefaultSource) else Err(DefaultNotAvailable)
    else if stamp == Some(CurrentStamp) then Err(CurrentAlreadyActive)
    else if st.archives == map[] then Err(NoArchives)
    else if stamp.Some? && stamp.value != "" then
      if stamp.value in st.archives then Ok(ArchiveSource(stamp.value)) else Err(ArchiveNotFound(stamp.value))
    else Ok(ArchiveSource(LastName(st.archives.Keys)))
  }

  /** `_restore_archive(stamp)` when the clock reads `newStamp`: resolve the target, snapshot
      the default if needed, archive the live dataset, clear it, and copy every entry of the
      target in. */
  ghost function Restore(st: Store, stamp: Option<string>, newStamp: string): Result<(Store, Source), Failure> {
    match ResolveRestore(st, stamp)
    case Err(e) => Err(e)
    case Ok(src) => Ok((Reload(st, src, newStamp), src))
  }

  /** The state change of a revert once its target is known. */
  function Reload(st: Store, src: Source, newStamp: string): Store {
    var st3 := Clear(Archive(EnsureDefault(st), newStamp).0);
    st3.(live := ContentOf(st3, src))
  }

  predicate ValidSource(st: Store, src: Source) {
    match src
    case DefaultSource => HasContent(st.dflt)
    case ArchiveSource(a) => a in st.archives
  }

  /** The target checks of `_apply_archive`: no "no archives" check, and the stamp is required. */
  function ResolveApply(st: Store, stamp: string): (r: Result<Source, Failure>)
    ensures r.Ok? <==> (stamp == DefaultStamp && HasContent(st.dflt)) || (stamp != DefaultStamp && stamp != CurrentStamp && stamp in st.archives)
  {
    if stamp == DefaultStamp then
      if HasContent(st.dflt) then Ok(DefaultSource) else Err(DefaultNotAvailable)
    else if stamp == CurrentStamp then Err(CurrentAlreadyActive)
    else if stamp in st.archives then Ok(ArchiveSource(stamp))
    else Err(ArchiveNotFound(stamp))
  }

  /** `_apply_archive(stamp)`: clear the live dataset and copy the target in, with no backup. */
  function Apply(st: Store, stamp: string): Result<(Store, Source), Failure> {
    match ResolveApply(st, stamp)
    case Err(e) => Err(e)
    case Ok(src) => Ok((st.(live := ContentOf(st, src)), src))
  }

  /** `delete_archive(stamp)`: the reserved stamps are refused, a missing archive is a 404, and
      otherwise exactly that archive is removed. */
  function Delete(st: Store, stamp: string): (r: Result<Store, Failure>)
    ensures stamp == DefaultStamp || stamp == CurrentStamp ==> r == Err(CannotDelete)
    ensures r.Ok? ==> stamp in st.archives && r.value.archives.Keys == st.archives.Keys - {stamp}
    ensures r.Ok? ==> forall a :: a in r.value.archives ==> r.value.archives[a] == st.archives[a]
    ensures r.Ok? ==> r.value.live == st.live && r.value.dflt == st.dflt
    ensures r.Err? ==> r == Err(CannotDelete) || r == Err(ArchiveNotFound(stamp))
    ensures stamp != DefaultStamp && stamp != CurrentStamp && stamp in st.archives ==> r.Ok?
  {
    if stamp == DefaultStamp || stamp == CurrentStamp then Err(CannotDelete)
    else if stamp !in st.archives then Err(ArchiveNotFound(stamp))
    else Ok(st.(archives := st.archives - {stamp}))
  }

  /** `clear_all_archives`: snapshot the default if needed; when `_archive` exists, reset the
      live dataset to the default (if it has content) and remove every archive. */
  function ClearAll(st: Store): (r: Store)
    requires StoreOk(st)
    ensures r.archives == map[] && !r.archiveRoot
    ensures r.dflt == EnsureDefault(st).dflt
    ensures r.live == if st.archiveRoot && HasContent(r.dflt) then CopyContents(r.dflt) else st.live
  {
    var st1 := EnsureDefault(st);
    if !st1.archiveRoot then st1
    else
      var st2 := if HasContent(st1.dflt) then Clear(st1).(live := CopyContents(st1.dflt)) else st1;
      st2.(archives := map[], archiveRoot := false)
  }
  // ---------------------------------------------------------------------
  // Properties of the lifecycle

  /** Archiving loses nothing: each live entry either stays where it was or is now in the
      archive under `stamp`; nothing archivable stays live; the other archives are untouched;
      and the stamp is returned exactly when something moved. */
  lemma ArchiveLosesNothing(st: Store, stamp: string)
    ensures var (st', moved) := Archive(st, stamp);
      && st'.archiveRoot && st'.dflt == st.dflt
      && (forall n :: n in st.live ==>
            (n in st'.live && st'.live[n] == st.live[n])
            || (stamp in st'.archives && n in st'.archives[stamp] && st'.archives[stamp][n] == st.live[n]))
      && (forall n :: n in st'.live ==> n in st.live && st'.live[n] == st.live[n] && !Archivable(n, st.live[n]))
      && (moved.None? <==> forall n :: n in st.live ==> !Archivable(n, st.live[n]))
      && (moved.Some? ==> moved.value == stamp)
      && (forall a :: a in st.archives && a != stamp ==> a in st'.archives && st'.archives[a] == st.archives[a])
      && (forall a :: a in st'.archives ==> a in st.archives || a == stamp)
  {
    var moved := ArchivedPart(st.live);
    if moved == map[] {
      assert forall n :: n in st.live && Archivable(n, st.live[n]) ==> n in moved;
    } else {
      var n :| n in moved;
      assert Archivable(n, st.live[n]);
    }
  }

  /** Right after an archive, a second archive moves nothing. */
  lemma {:induction false} ArchiveTwiceMovesNothing(st: Store, s1: string, s2: string)
    ensures var st1 := Archive(st, s1).0; Archive(st1, s2) == (st1, None)
  {
    var st1 := Archive(st, s1).0;
    ArchiveLosesNothing(st, s1);
    assert ArchivedPart(st1.live) == map[] by {
      forall n | n in st1.live
        ensures !Archivable(n, st1.live[n])
      {
      }
    }
  }

  lemma StoreOkPreserved(st: Store, stamp: string)
    requires StoreOk(st)
    ensures StoreOk(EnsureDefault(st)) && StoreOk(Clear(st)) && StoreOk(Archive(st, stamp).0)
    ensures stamp in st.archives ==> StoreOk(st.(live := st.archives[stamp]))
    ensures StoreOk(st.(live := st.dflt))
  {
  }

  /** A revert (`_restore_archive`) that succeeds never loses data, provided the clock's stamp
      names no existing archive: every existing archive is kept unchanged, the archivable part
      of the replaced dataset is stored under the new stamp, a default that had content is
      untouched, and the live dataset becomes the target exactly as it was before the call. */
  lemma {:induction false} RestoreKeepsData(st: Store, stamp: Option<string>, newStamp: string)
    requires StoreOk(st) && newStamp !in st.archives
    requires Restore(st, stamp, newStamp).Ok?
    ensures var (st', src) := Restore(st, stamp, newStamp).value;
      && st'.live == ContentOf(st, src)
      && (forall a :: a in st.archives ==> a in st'.archives && st'.archives[a] == st.archives[a])
      && (ArchivedPart(st.live) != map[] ==> newStamp in st'.archives && st'.archives[newStamp] == ArchivedPart(st.live))
      && (ArchivedPart(st.live) == map[] ==> st'.archives == st.archives)
      && (HasContent(st.dflt) ==> st'.dflt == st.dflt)
      && StoreOk(st')
  {
    var src := ResolveRestore(st, stamp).value;
    assert ValidSource(st, src);
    ReloadKeepsData(st, src, newStamp);
  }

  lemma {:induction false} ReloadKeepsData(st: Store, src: Source, newStamp: string)
    requires StoreOk(st) && newStamp !in st.archives && ValidSource(st, src)
    ensures var st' := Reload(st, src, newStamp);
      && st'.live == ContentOf(st, src)
      && (forall a :: a in st.archives ==> a in st'.archives && st'.archives[a] == st.archives[a])
      && (ArchivedPart(st.live) != map[] ==> newStamp in st'.archives && st'.archives[newStamp] == ArchivedPart(st.live))
      && (ArchivedPart(st.live) == map[] ==> st'.archives == st.archives)
      && (HasContent(st.dflt) ==> st'.dflt == st.dflt)
      && StoreOk(st')
  {
    var st1 := EnsureDefault(st);
    assert st1.live == st.live && st1.archives == st.archives && st1.archiveRoot == st.archiveRoot;
    assert HasContent(st.dflt) ==> st1.dflt == st.dflt;
    StoreOkPreserved(st, newStamp);
    var st2 := Archive(st1, newStamp).0;
    ArchiveFresh(st1, newStamp);
    StoreOkPreserved(st1, newStamp);
    var st3 := Clear(st2);
    assert st3.archives == st2.archives && st3.dflt == st1.dflt;
    StoreOkPreserved(st2, newStamp);
    var st' := st3.(live := ContentOf(st3, src));
    assert Reload(st, src, newStamp) == st';
    match src
    case DefaultSource =>
      assert ContentOf(st3, src) == st.dflt;
      StoreOkPreserved(st3, newStamp);
    case ArchiveSource(a) =>
      assert ContentOf(st3, src) == st.archives[a];
      StoreOkPreserved(st3, a);
  }

  /** Archiving under a stamp no archive has yet. */
  lemma {:induction false} ArchiveFresh(st: Store, stamp: string)
    requires stamp !in st.archives
    ensures var st' := Archive(st, stamp).0;
      && st'.dflt == st.dflt
      && (forall a :: a in st.archives ==> a in st'.archives && st'.archives[a] == st.archives[a])
      && (ArchivedPart(st.live) != map[] ==> st'.archives == st.archives[stamp := ArchivedPart(st.live)])
      && (ArchivedPart(st.live) == map[] ==> st'.archives == st.archives)
  {
    var moved := ArchivedPart(st.live);
    assert map[] + moved == moved;
  }

  /** Two reverts with no stamp bring the replaced dataset back: the first revert archives the
      live dataset under a stamp that sorts after every existing archive (a later clock reading;
      see `Dates.StampOrder`), so the second revert picks that archive and restores it. */
  lemma {:induction false} RevertTwiceRestores(st: Store, s1: string, s2: string)
    requires StoreOk(st) && st.archives != map[] && ArchivedPart(st.live) != map[]
    requires s1 !in st.archives && forall a :: a in st.archives ==> Below(a, s1)
    requires s2 != s1 && s2 !in st.archives
    ensures Restore(st, None, s1).Ok?
    ensures var st1 := Restore(st, None, s1).value.0;
      Restore(st1, None, s2).Ok? && Restore(st1, None, s2).value.0.live == ArchivedPart(st.live)
  {
    assert ResolveRestore(st, None).Ok?;
    RestoreKeepsData(st, None, s1);
    var st1 := Restore(st, None, s1).value.0;
    assert s1 in st1.archives && st1.archives[s1] == ArchivedPart(st.live);
    assert forall a :: a in st1.archives ==> a in st.archives || a == s1;
    LastNameUnique(st1.archives.Keys, s1);
    assert ResolveRestore(st1, None) == Ok(ArchiveSource(s1));
    assert s2 !in st1.archives;
    RestoreKeepsData(st1, None, s2);
  }

  /** With no stamp, revert picks the newest archive when archives are named by their stamps. */
  lemma {:induction false} RevertPicksNewest(st: Store, stamp: Option<string>, when: map<string, Instant>)
    requires st.archives != map[] && (stamp == None || stamp == Some(""))
    requires forall a :: a in st.archives ==> a in when && ValidInstant(when[a]) && Stamp(when[a]) == a
    ensures ResolveRestore(st, stamp).Ok?
    ensures var b := ResolveRestore(st, stamp).value.stamp;
      forall a :: a in st.archives && a != b ==> InstantBefore(when[a], when[b])
  {
    var b := ResolveRestore(st, stamp).value.stamp;
    assert b == LastName(st.archives.Keys);
    forall a | a in st.archives && a != b
      ensures InstantBefore(when[a], when[b])
    {
      StampOrder(when[a], when[b]);
    }
  }

  /** Apply and revert load the same dataset for the same named archive; apply keeps no backup
      of the replaced dataset and leaves archives and default as they were. */
  lemma {:induction false} ApplyIsRevertWithoutBackup(st: Store, stamp: string, newStamp: string)
    requires StoreOk(st) && newStamp !in st.archives
    requires stamp != "" && Apply(st, stamp).Ok?
    ensures Restore(st, Some(stamp), newStamp).Ok?
    ensures var (applied, src) := Apply(st, stamp).value;
      && Restore(st, Some(stamp), newStamp).value.1 == src
      && Restore(st, Some(stamp), newStamp).value.0.live == applied.live
      && applied.archives == st.archives && applied.dflt == st.dflt && applied.archiveRoot == st.archiveRoot
  {
    assert ResolveApply(st, stamp).Ok?;
    assert ResolveRestore(st, Some(stamp)) == ResolveApply(st, stamp);
    RestoreKeepsData(st, Some(stamp), newStamp);
  }

  /** `_default` is written at most once: once it has content, no operation changes it. */
  lemma {:induction false} DefaultWriteOnce(st: Store, stamp: string, newStamp: string, req: Option<string>)
    requires StoreOk(st) && HasContent(st.dflt)
    ensures EnsureDefault(st) == st
    ensures Archive(st, newStamp).0.dflt == st.dflt && Clear(st).dflt == st.dflt
    ensures Restore(st, req, newStamp).Ok? ==> Restore(st, req, newStamp).value.0.dflt == st.dflt
    ensures Apply(st, stamp).Ok? ==> Apply(st, stamp).value.0.dflt == st.dflt
    ensures Delete(st, stamp).Ok? ==> Delete(st, stamp).value.dflt == st.dflt
    ensures ClearAll(st).dflt == st.dflt
  {
  }

  /** Snapshotting the default twice is snapshotting it once. */
  lemma {:induction false} EnsureDefaultIdempotent(st: Store)
    ensures EnsureDefault(EnsureDefault(st)) == EnsureDefault(st)
  {
    var st1 := EnsureDefault(st);
    if !HasContent(st.dflt) && HasContent(st.live) && !HasContent(st1.dflt) {
      assert st1.live == st.live;
      assert st1.dflt + CopyContents(st1.live) == st1.dflt;
    }
  }
  lemma {:induction false} ReloadStoreOk(st: Store, src: Source, newStamp: string)
    requires StoreOk(st) && ValidSource(st, src)
    ensures StoreOk(Reload(st, src, newStamp))
  {
    var st1 := EnsureDefault(st);
    StoreOkPreserved(st, newStamp);
    var st2 := Archive(st1, newStamp).0;
    StoreOkPreserved(st1, newStamp);
    var st3 := Clear(st2);
    StoreOkPreserved(st2, newStamp);
    StoreOkPreserved(st3, newStamp);
    match src
    case DefaultSource =>
    case ArchiveSource(a) =>
      assert a in st3.archives;
      StoreOkPreserved(st3, a);
  }

  // ---------------------------------------------------------------------
  // The data directory, operated on entry by entry

  /** The entries the loop of `_archive_existing_dataset` moves (`outputs` is moved after it). */
  predicate LoopMovable(name: string, item: Item) {
    !Hidden(name) && (IsDateFolder(name, item) || IsStationFile(name, item) || IsMetaFile(name, item))
  }

  function MovedAmong(l: Listing, done: set<string>): Listing {
    Pick(l, done, LoopMovable)
  }

  /** The entries of `l` among `done` that `keep` selects. */
  function Pick<K, V>(l: map<K, V>, done: set<K>, keep: (K, V) -> bool): map<K, V> {
    map n | n in l && n in done && keep(n, l[n]) :: l[n]
  }

  lemma PickOneMore<K, V>(base: map<K, V>, l: map<K, V>, done: set<K>, keep: (K, V) -> bool, name: K)
    requires name in l && name !in done
    ensures base + Pick(l, done + {name}, keep) ==
      if keep(name, l[name]) then (base + Pick(l, done, keep))[name := l[name]] else base + Pick(l, done, keep)
  {
    var m := Pick(l, done, keep);
    if keep(name, l[name]) {
      assert Pick(l, done + {name}, keep) == m[name := l[name]];
    } else {
      assert Pick(l, done + {name}, keep) == m;
    }
  }

  /** A loop that moves the entries `keep` selects from `l` into bucket `stamp` of `a`:
      the remaining entries, the buckets and whether anything moved, once it has visited `done`. */
  function Moving<K, V>(l: map<K, V>, a: map<string, map<K, V>>, stamp: string, done: set<K>, keep: (K, V) -> bool)
    : (map<K, V>, map<string, map<K, V>>, bool)
  {
    var m := Pick(l, done, keep);
    (l - m.Keys, if m != map[] then a[stamp := (if stamp in a then a[stamp] else map[]) + m] else a, m != map[])
  }

  lemma MovingNothing<K, V>(l: map<K, V>, a: map<string, map<K, V>>, stamp: string, keep: (K, V) -> bool)
    ensures Moving(l, a, stamp, l.Keys - l.Keys, keep) == (l, a, false)
  {
    var m := Pick(l, l.Keys - l.Keys, keep);
    assert m == map[];
    assert l - m.Keys == l;
  }

  lemma MovingOneMore<K, V>(l: map<K, V>, a: map<string, map<K, V>>, stamp: string, done: set<K>, keep: (K, V) -> bool, name: K)
    requires name in l && name !in done
    ensures var (live, archives, movedAny) := Moving(l, a, stamp, done, keep);
      && name in live && live[name] == l[name]
      && Moving(l, a, stamp, done + {name}, keep) ==
        if keep(name, l[name])
        then (live - {name}, archives[stamp := (if stamp in archives then archives[stamp] else map[])[name := l[name]]], true)
        else (live, archives, movedAny)
  {
    var m := Pick(l, done, keep);
    var m' := Pick(l, done + {name}, keep);
    var base: map<K, V> := if stamp in a then a[stamp] else map[];
    assert name !in m;
    if keep(name, l[name]) {
      var v := l[name];
      assert m' == m[name := v];
      assert (l - m.Keys) - {name} == l - m'.Keys;
      assert (base + m)[name := v] == base + m';
      if m == map[] {
        assert base + m == base;
      } else {
        var archives := a[stamp := base + m];
        assert (if stamp in archives then archives[stamp] else map[]) == base + m;
      }
      assert name in m';
      var t := Moving(l, a, stamp, done, keep);
      var t' := Moving(l, a, stamp, done + {name}, keep);
      assert t'.0 == t.0 - {name};
      assert t'.2;
      assert t'.1 == t.1[stamp := (if stamp in t.1 then t.1[stamp] else map[])[name := v]];
    } else {
      assert m' == m;
    }
  }

  /** The live listing, the archives and the `moved` flag once the loop has visited `done`. */
  function AfterMoving(l: Listing, a: map<string, Listing>, stamp: string, done: set<string>): (Listing, map<string, Listing>, bool) {
    Moving(l, a, stamp, done, LoopMovable)
  }

  /** `_archive_existing_dataset` in its two stages: the loop, then `outputs`. */
  function LoopThenOutputs(st: Store, stamp: string): (Store, Option<string>) {
    var (l1, a1, movedAny) := AfterMoving(st.live, st.archives, stamp, st.live.Keys);
    if OutputsName in l1 then
      (st.(live := l1 - {OutputsName}, archives := a1[stamp := ArchiveAt(a1, stamp)[OutputsName := l1[OutputsName]]], archiveRoot := true),
       Some(stamp))
    else
      (st.(live := l1, archives := a1, archiveRoot := true), if movedAny then Some(stamp) else None)
  }

  lemma LoopThenOutputsIsArchive(st: Store, stamp: string)
    ensures LoopThenOutputs(st, stamp) == Archive(st, stamp)
  {
    var l := st.live;
    var loopPart := MovedAmong(l, l.Keys);
    var full := ArchivedPart(l);
    ArchivedPartSplit(l);
    var e := ArchiveAt(st.archives, stamp);
    if OutputsName in l {
      RemoveInTwoSteps(l, loopPart, OutputsName);
      var a1 := if loopPart != map[] then st.archives[stamp := e + loopPart] else st.archives;
      AddInTwoSteps(e, loopPart, OutputsName, l[OutputsName]);
      assert e + map[] == e;
      assert ArchiveAt(a1, stamp) == e + loopPart;
      var a2 := a1[stamp := ArchiveAt(a1, stamp)[OutputsName := l[OutputsName]]];
      assert a2 == st.archives[stamp := e + full];
      assert full != map[];
      var l1 := l - loopPart.Keys;
      assert l1 - {OutputsName} == l - full.Keys;
      assert LoopThenOutputs(st, stamp) == (st.(live := l - full.Keys, archives := a2, archiveRoot := true), Some(stamp));
      assert Archive(st, stamp) == (st.(live := l - full.Keys, archives := a2, archiveRoot := true), Some(stamp));
    } else {
      assert full == loopPart;
      if full == map[] {
        assert l - full.Keys == l;
      }
    }
  }

  /** `outputs` is the one archivable entry the loop leaves for later. */
  lemma ArchivedPartSplit(l: Listing)
    ensures OutputsName !in MovedAmong(l, l.Keys)
    ensures OutputsName in l ==> ArchivedPart(l) == MovedAmong(l, l.Keys)[OutputsName := l[OutputsName]]
    ensures OutputsName !in l ==> ArchivedPart(l) == MovedAmong(l, l.Keys)
  {
    assert !Hidden(OutputsName) by { assert OutputsName[0] != '_'; }
    assert !IsDateDirName(OutputsName);
  }

  lemma RemoveInTwoSteps<K, V>(l: map<K, V>, part: map<K, V>, k: K)
    requires k in l && k !in part
    ensures (l - part.Keys) - {k} == l - part[k := l[k]].Keys
    ensures k in l - part.Keys && (l - part.Keys)[k] == l[k]
  {
  }

  lemma AddInTwoSteps<K, V>(e: map<K, V>, part: map<K, V>, k: K, v: V)
    ensures (e + part)[k := v] == e + part[k := v]
  {
  }

  /** The day number of a date folder name. */
  function DayOf(name: string): int
    requires IsDateDirName(name)
  {
    Ordinal(ParseDate(name).value)
  }

  /** Among the entries named in `done`, the date folders span the days `lo` to `hi`:
      both ends occur and every date folder lies between them. */
  predicate DaySpan(l: Listing, done: set<string>, lo: int, hi: int) {
    && (exists n :: n in l && n in done && IsDateFolder(n, l[n]) && DayOf(n) == lo)
    && (exists n :: n in l && n in done && IsDateFolder(n, l[n]) && DayOf(n) == hi)
    && (forall n :: n in l && n in done && IsDateFolder(n, l[n]) ==> lo <= DayOf(n) <= hi)
  }

  lemma DaySpanFirst(l: Listing, done: set<string>, n: string)
    requires n in l && IsDateFolder(n, l[n])
    requires forall m :: m in l && m in done ==> !IsDateFolder(m, l[m])
    ensures DaySpan(l, done + {n}, DayOf(n), DayOf(n))
  {
  }

  lemma DaySpanOneMore(l: Listing, done: set<string>, n: string, lo: int, hi: int)
    requires n in l && IsDateFolder(n, l[n]) && DaySpan(l, done, lo, hi)
    ensures var d := DayOf(n);
      DaySpan(l, done + {n}, if d < lo then d else lo, if d > hi then d else hi)
  {
  }

  lemma DaySpanSkip(l: Listing, done: set<string>, n: string, lo: int, hi: int)
    requires n in l && !IsDateFolder(n, l[n]) && DaySpan(l, done, lo, hi)
    ensures DaySpan(l, done + {n}, lo, hi)
  {
  }

  /** `range` is the precompute range of `l`: the newest 366 days at most of its date folders. */
  ghost predicate RangeOf(l: Listing, range: PrecomputeRange) {
    exists lo :: lo <= range.end && DaySpan(l, l.Keys, lo, range.end) && range == ClampToMaxRange(lo, range.end)
  }

  predicate NoDateFolder(l: Listing) {
    forall n :: n in l ==> !IsDateFolder(n, l[n])
  }

  /** A folder holding an entry `trains.csv` (file or folder). */
  predicate HasTrainsCsv(item: Item) {
    item.Folder? && exists k :: k in item.files && k != [] && k[0] == "trains.csv"
  }

  /** The date folders `_list_train_csv_files(s, e)` returns. */
  predicate SelectedDay(l: Listing, s: int, e: int, n: string) {
    n in l && IsDateFolder(n, l[n]) && s <= DayOf(n) <= e && HasTrainsCsv(l[n])
  }

  /** Date folder names in name order are in day order. */
  lemma SortedFoldersByDay(files: seq<string>)
    requires StrictlySorted(files) && forall n :: n in files ==> IsDateDirName(n)
    ensures forall i, j :: 0 <= i < j < |files| ==>
      IsDateDirName(files[i]) && IsDateDirName(files[j]) && DayOf(files[i]) < DayOf(files[j])
  {
    forall i, j | 0 <= i < j < |files|
      ensures IsDateDirName(files[i]) && IsDateDirName(files[j]) && DayOf(files[i]) < DayOf(files[j])
    {
      assert files[i] in files && files[j] in files;
      NameOrderIsDateOrder(files[i], files[j]);
    }
  }

  /** The names of the entries directly inside folder `p` of a tree. */
  function Children(t: Tree, p: seq<string>): set<string> {
    set k | k in t && |p| < |k| && k[..|p|] == p :: k[|p|]
  }

  /** The files below folder `p`, by their paths relative to `p`. */
  function Subtree(t: Tree, p: seq<string>): Tree {
    var below := set k | k in t && |p| < |k| && k[..|p|] == p :: k[|p|..];
    map r | r in below && p + r in t :: t[p + r]
  }

  /** The entry at path `p` of a tree that has one there. */
  function EntryAt(t: Tree, p: seq<string>): Item {
    if p in t then File(t[p]) else Folder(Subtree(t, p))
  }

  /** What `_copy_dataset_into_webapp` copies from the dataset root: station files and date folders. */
  predicate Importable(name: string, item: Item) {
    IsStationFile(name, item) || IsDateFolder(name, item)
  }

  /** The entries directly inside folder `root`, by name. */
  function ChildEntries(t: Tree, root: seq<string>): Listing {
    map c | c in Children(t, root) :: EntryAt(t, root + [c])
  }

  function Imported(t: Tree, root: seq<string>): Listing {
    var entries := ChildEntries(t, root);
    Pick(entries, entries.Keys, Importable)
  }

  /** Nothing copied in from a dataset can take the name of `_archive` or `_default`. */
  lemma ImportedReservedFree(entries: Listing)
    ensures ReservedFree(Pick(entries, entries.Keys, Importable))
  {
    assert |ArchiveRootName| != 10 && |DefaultDirName| != 10;
  }

  /** `outputs/` (with `outputs/runtime/`) after `mkdir(exist_ok=True)`. */
  function WithOutputs(l: Listing): Listing {
    if OutputsName in l then l else l[OutputsName := Folder(map[])]
  }

  /** `_write_dataset_meta`: a non-empty name is recorded, stripped, in `dataset.meta.json`;
      a write that fails (a folder in the way) is ignored. The file is modelled by the name
      it records. */
  function MetaWritten(l: Listing, name: Option<string>): (r: Listing)
    ensures r.Keys <= l.Keys + {MetaFileName}
    ensures forall n :: n in l && n != MetaFileName ==> n in r && r[n] == l[n]
    ensures name.None? || name.value == "" || (MetaFileName in l && l[MetaFileName].Folder?) ==> r == l
    ensures name.Some? && name.value != "" && !(MetaFileName in l && l[MetaFileName].Folder?)
      ==> MetaFileName in r && r[MetaFileName] == File(Strip(name.value))
  {
    if name.None? || name.value == "" || (MetaFileName in l && l[MetaFileName].Folder?) then l
    else l[MetaFileName := File(Strip(name.value))]
  }

  /** One entry of `GET /data/archives`. `path` is the entry's directory relative to the live
      directory: `[]` for the live dataset itself. */
  datatype ArchiveEntry = ArchiveEntry(stamp: string, path: seq<string>, name: Option<string>, isDefault: bool, isCurrent: bool)

  /** `_read_dataset_meta(dir / "dataset.meta.json").get("name")`, when it is a non-empty
      name: a missing meta file, or a folder in its place, reads as `{}`. The file is modelled
      by the name it records, the empty text standing for a file without one. */
  function MetaName(l: Listing): (r: Option<string>)
    ensures r.Some? <==> MetaFileName in l && l[MetaFileName].File? && l[MetaFileName].data != ""
    ensures r.Some? ==> r.value == l[MetaFileName].data
  {
    if MetaFileName in l && l[MetaFileName].File? && l[MetaFileName].data != "" then Some(l[MetaFileName].data) else None
  }

  /** The name `_current_dataset_entry` gives the live dataset: its recorded name; otherwise
      `"<oldest> → <newest>"` from the date folders it holds, `date.isoformat()` giving back
      each folder's own name; otherwise, with no date folder, "Current dataset". */
  ghost predicate CurrentNamed(live: Listing, name: string) {
    if MetaName(live).Some? then name == MetaName(live).value
    else if NoDateFolder(live) then name == "Current dataset"
    else exists a, b :: && a in live && b in live && IsDateFolder(a, live[a]) && IsDateFolder(b, live[b])
                        && DaySpan(live, live.Keys, DayOf(a), DayOf(b)) && name == RangeName(a, b)
  }

  /** `f"{min_d.isoformat()} → {max_d.isoformat()}"` */
  function RangeName(oldest: string, newest: string): string {
    oldest + " \U{2192} " + newest
  }

  /** `_default_archive_entry()`: the `_default` snapshot, when it has content, under its
      recorded name or "Bundled dataset". */
  function DefaultArchiveEntry(dflt: Listing): (r: Option<ArchiveEntry>)
    ensures r.Some? <==> HasContent(dflt)
    ensures r.Some? ==> && r.value.stamp == DefaultStamp && r.value.path == [DefaultDirName]
                        && r.value.isDefault && !r.value.isCurrent && r.value.name.Some?
                        && (MetaName(dflt).Some? ==> r.value.name == MetaName(dflt))
                        && (MetaName(dflt).None? ==> r.value.name == Some("Bundled dataset"))
  {
    if !HasContent(dflt) then None
    else Some(ArchiveEntry(DefaultStamp, [DefaultDirName], Some(if MetaName(dflt).Some? then MetaName(dflt).value else "Bundled dataset"), true, false))
  }

  /** The entry of one archive: `_archive/<stamp>`, under its recorded name if any. */
  function ArchivedEntry(stamp: string, archived: Listing): (r: ArchiveEntry)
    ensures r.stamp == stamp && r.path == [ArchiveRootName, stamp] && r.name == MetaName(archived)
    ensures !r.isDefault && !r.isCurrent
  {
    ArchiveEntry(stamp, [ArchiveRootName, stamp], MetaName(archived), false, false)
  }

  /** The entries listed ahead of the archives: the current dataset (named `currentName`), then
      the default. */
  function LeadEntries(live: Listing, dflt: Listing, currentName: string): (r: seq<ArchiveEntry>)
    ensures |r| <= 2
    ensures forall i :: 0 <= i < |r| ==> (r[i].isCurrent <==> i == 0 && HasContent(live))
    ensures forall i :: 0 <= i < |r| ==> (r[i].isDefault <==> r[i].stamp == DefaultStamp)
    ensures (HasContent(live) || HasContent(dflt)) <==> r != []
    ensures HasContent(live) ==> r[0] == ArchiveEntry(CurrentStamp, [], Some(currentName), false, true)
    ensures HasContent(dflt) ==> r[|r| - 1] == DefaultArchiveEntry(dflt).value
  {
    (if HasContent(live) then [ArchiveEntry(CurrentStamp, [], Some(currentName), false, true)] else [])
      + (if HasContent(dflt) then [DefaultArchiveEntry(dflt).value] else [])
  }

  /** `entries` lists `lead`, then every archive exactly once, in name order, under its
      recorded name. */
  ghost predicate ArchiveListing(entries: seq<ArchiveEntry>, lead: seq<ArchiveEntry>, archives: map<string, Listing>) {
    && |entries| == |lead| + |archives|
    && entries[..|lead|] == lead
    && (forall i :: |lead| <= i < |entries| ==>
          entries[i].stamp in archives && entries[i] == ArchivedEntry(entries[i].stamp, archives[entries[i].stamp]))
    && (forall a :: a in archives <==> exists i :: |lead| <= i < |entries| && entries[i].stamp == a)
    && (forall i, j :: |lead| <= i < j < |entries| ==> Below(entries[i].stamp, entries[j].stamp))
  }

  /** Appending one entry per archive name, the names sorted and naming each archive once,
      lists the archives. */
  lemma ArchivesListed(lead: seq<ArchiveEntry>, names: seq<string>, archives: map<string, Listing>, entries: seq<ArchiveEntry>)
    requires StrictlySorted(names) && |names| == |archives| && forall a :: a in names <==> a in archives
    requires |entries| == |lead| + |names| && entries[..|lead|] == lead
    requires forall j :: |lead| <= j < |entries| ==> entries[j] == ArchivedEntry(names[j - |lead|], archives[names[j - |lead|]])
    ensures ArchiveListing(entries, lead, archives)
  {
    var k := |lead|;
    forall a | a in archives
      ensures exists j :: k <= j < |entries| && entries[j].stamp == a
    {
      var n :| 0 <= n < |names| && names[n] == a;
      assert entries[k + n].stamp == a;
    }
  }

  class DataDir {
    var live: Listing
    var dflt: Listing
    var archives: map<string, Listing>
    var archiveRoot: bool
    /** Whether `_STATIONS_CACHE` holds a loaded station index. */
    var stationsCached: bool

    function State(): Store
      reads this
    {
      Store(live, dflt, archives, archiveRoot)
    }

    ghost predicate Valid()
      reads this
    {
      StoreOk(State())
    }

    constructor (st: Store)
      requires StoreOk(st)
      ensures State() == st && Valid() && !stationsCached
    {
      live, dflt, archives, archiveRoot := st.live, st.dflt, st.archives, st.archiveRoot;
      stationsCached := false;
    }

    /** `_dataset_has_content` on one of the listings. */
    static method DatasetHasContent(root: Listing) returns (b: bool)
      ensures b == HasContent(root)
    {
      if "stations.csv" in root || "stations.clean.csv" in root || "stations.geojson" in root {
        return true;
      }
      var todo := root.Keys;
      while todo != {}
        invariant todo <= root.Keys
        invariant forall n :: n in root && n !in todo ==> !IsDateFolder(n, root[n])
        decreases todo
      {
        var n :| n in todo;
        if IsDateFolder(n, root[n]) {
          return true;
        }
        todo := todo - {n};
      }
      return false;
    }

    /** `_copy_dataset_contents(src, dest)`: the new listing of `dest`. */
    static method CopyDatasetContents(src: Listing, dest: Listing) returns (r: Listing)
      ensures r == dest + CopyContents(src)
    {
      r := dest;
      var todo := src.Keys;
      while todo != {}
        invariant todo <= src.Keys
        invariant r == dest + Pick(src, src.Keys - todo, Copyable)
        decreases todo
      {
        var n :| n in todo;
        ghost var before := src.Keys - todo;
        PickOneMore(dest, src, before, Copyable, n);
        if Copyable(n, src[n]) {
          r := r[n := src[n]];
        }
        todo := todo - {n};
        assert src.Keys - todo == before + {n};
      }
      assert src.Keys - todo == src.Keys;
      assert Pick(src, src.Keys, Copyable) == CopyContents(src);
    }

    method ClearCurrentDataset()
      modifies this
      ensures State() == Clear(old(State())) && stationsCached == old(stationsCached)
    {
      var todo := live.Keys;
      while todo != {}
        invariant live.Keys == todo
        invariant dflt == old(dflt) && archives == old(archives) && archiveRoot == old(archiveRoot)
        invariant stationsCached == old(stationsCached)
        decreases todo
      {
        var n :| n in todo;
        live := live - {n};
        todo := todo - {n};
      }
      assert live == map[];
    }

    method EnsureDefaultDataset()
      modifies this
      ensures State() == EnsureDefault(old(State())) && stationsCached == old(stationsCached)
    {
      var hasDefault := DatasetHasContent(dflt);
      if hasDefault {
        return;
      }
      var hasLive := DatasetHasContent(live);
      if !hasLive {
        return;
      }
      dflt := CopyDatasetContents(live, dflt);
    }

    /** `_archive_existing_dataset()` when the clock reads `stamp`. */
    method ArchiveExistingDataset(stamp: string) returns (moved: Option<string>)
      modifies this
      ensures (State(), moved) == Archive(old(State()), stamp)
      ensures stationsCached == old(stationsCached)
    {
      ghost var st := State();
      archiveRoot := true;
      var movedAny := MoveDatasetEntries(stamp);
      if OutputsName in live {
        archives := archives[stamp := ArchiveAt(archives, stamp)[OutputsName := live[OutputsName]]];
        live := live - {OutputsName};
        movedAny := true;
      }
      moved := if movedAny then Some(stamp) else None;
      assert (State(), moved) == LoopThenOutputs(st, stamp);
      LoopThenOutputsIsArchive(st, stamp);
    }

    /** The loop of `_archive_existing_dataset`: date folders, station files and the meta file. */
    method MoveDatasetEntries(stamp: string) returns (movedAny: bool)
      modifies this
      ensures (live, archives, movedAny) == AfterMoving(old(live), old(archives), stamp, old(live).Keys)
      ensures dflt == old(dflt) && archiveRoot == old(archiveRoot) && stationsCached == old(stationsCached)
    {
      ghost var l := live;
      ghost var a := archives;
      movedAny := false;
      var todo := live.Keys;
      MovingNothing(l, a, stamp, LoopMovable);
      while todo != {}
        invariant todo <= l.Keys
        invariant (live, archives, movedAny) == AfterMoving(l, a, stamp, l.Keys - todo)
        invariant dflt == old(dflt) && archiveRoot == old(archiveRoot) && stationsCached == old(stationsCached)
        decreases todo
      {
        var name :| name in todo;
        ghost var before := l.Keys - todo;
        MovingOneMore(l, a, stamp, before, LoopMovable, name);
        var item := live[name];
        if LoopMovable(name, item) {
          archives := archives[stamp := ArchiveAt(archives, stamp)[name := item]];
          live := live - {name};
          movedAny := true;
        }
        todo := todo - {name};
        assert l.Keys - todo == before + {name};
      }
      assert l.Keys - todo == l.Keys;
    }

    /** `_list_archives()`: the archive names in name order. */
    method ListArchives() returns (names: seq<string>)
      requires Valid()
      ensures StrictlySorted(names) && |names| == |archives|
      ensures forall a :: a in names <==> a in archives
    {
      if !archiveRoot {
        return [];
      }
      names := SortByName(archives.Keys);
    }

    /** Copy every entry of `content` into the (cleared) live directory. */
    method LoadEntries(content: Listing)
      requires live == map[]
      modifies this
      ensures live == content
      ensures dflt == old(dflt) && archives == old(archives) && archiveRoot == old(archiveRoot)
      ensures stationsCached == old(stationsCached)
    {
      var todo := content.Keys;
      while todo != {}
        invariant todo <= content.Keys
        invariant live == map n | n in content && n !in todo :: content[n]
        invariant dflt == old(dflt) && archives == old(archives) && archiveRoot == old(archiveRoot)
        invariant stationsCached == old(stationsCached)
        decreases todo
      {
        var n :| n in todo;
        live := live[n := content[n]];
        todo := todo - {n};
      }
    }

    /** `_restore_archive(stamp)` (`POST /data/revert`) when the clock reads `newStamp`. */
    method RestoreArchive(stamp: Option<string>, newStamp: string) returns (r: Result<Source, Failure>)
      requires Valid()
      modifies this
      ensures Valid()
      ensures match Restore(old(State()), stamp, newStamp)
        case Err(e) => r == Err(e) && State() == old(State()) && stationsCached == old(stationsCached)
        case Ok(res) => r == Ok(res.1) && State() == res.0 && !stationsCached
    {
      var target: Source;
      if stamp == Some(DefaultStamp) {
        var has := DatasetHasContent(dflt);
        if !has {
          return Err(DefaultNotAvailable);
        }
        target := DefaultSource;
      } else if stamp == Some(CurrentStamp) {
        return Err(CurrentAlreadyActive);
      } else {
        var names := ListArchives();
        if names == [] {
          return Err(NoArchives);
        }
        if stamp.Some? && stamp.value != "" {
          if stamp.value !in archives {
            return Err(ArchiveNotFound(stamp.value));
          }
          target := ArchiveSource(stamp.value);
        } else {
          var last := names[|names| - 1];
          forall x | x in archives && x != last
            ensures Below(x, last)
          {
            var j :| 0 <= j < |names| && names[j] == x;
          }
          LastNameUnique(archives.Keys, last);
          target := ArchiveSource(last);
        }
      }
      ghost var st := State();
      assert ResolveRestore(st, stamp) == Ok(target);
      EnsureDefaultDataset();
      var _ := ArchiveExistingDataset(newStamp);
      ClearCurrentDataset();
      LoadEntries(ContentOf(State(), target));
      stationsCached := false;
      ReloadStoreOk(st, target, newStamp);
      r := Ok(target);
    }

    /** `_apply_archive(stamp)`: switch datasets without a backup. */
    method ApplyArchive(stamp: string) returns (r: Result<Source, Failure>)
      requires Valid()
      modifies this
      ensures Valid()
      ensures match Apply(old(State()), stamp)
        case Err(e) => r == Err(e) && State() == old(State()) && stationsCached == old(stationsCached)
        case Ok(res) => r == Ok(res.1) && State() == res.0 && !stationsCached
    {
      var target: Source;
      if stamp == DefaultStamp {
        var has := DatasetHasContent(dflt);
        if !has {
          return Err(DefaultNotAvailable);
        }
        target := DefaultSource;
      } else if stamp == CurrentStamp {
        return Err(CurrentAlreadyActive);
      } else {
        if stamp !in archives {
          return Err(ArchiveNotFound(stamp));
        }
        target := ArchiveSource(stamp);
      }
      var content := ContentOf(State(), target);
      ClearCurrentDataset();
      LoadEntries(content);
      stationsCached := false;
      r := Ok(target);
    }

    /** `POST /data/apply-archive`: apply, then report the new date range. The range lookup
        runs after the switch, so a dataset without date folders is applied and still
        answered with a 404. */
    method ApplyArchiveDataset(stamp: string) returns (r: Result<(Source, int, int), Failure>)
      requires Valid()
      modifies this
      ensures Valid()
      ensures match Apply(old(State()), stamp)
        case Err(e) => r == Err(e) && State() == old(State())
        case Ok(res) =>
          && State() == res.0 && !stationsCached
          && (r.Err? <==> NoDateFolder(live))
          && (r.Err? ==> r.error == NoDatedFolders)
          && (r.Ok? ==> r.value.0 == res.1 && DaySpan(live, live.Keys, r.value.1, r.value.2))
    {
      var applied := ApplyArchive(stamp);
      if applied.Err? {
        return Err(applied.error);
      }
      var range := InferAvailableDateRange();
      if range.Err? {
        return Err(range.error);
      }
      r := Ok((applied.value, range.value.0, range.value.1));
    }

    /** `POST /data/delete-archive` */
    method DeleteArchive(stamp: string) returns (r: Result<string, Failure>)
      requires Valid()
      modifies this
      ensures Valid() && stationsCached == old(stationsCached)
      ensures match Delete(old(State()), stamp)
        case Err(e) => r == Err(e) && State() == old(State())
        case Ok(st') => r == Ok(stamp) && State() == st'
    {
      if stamp == DefaultStamp || stamp == CurrentStamp {
        return Err(CannotDelete);
      }
      if stamp !in archives {
        return Err(ArchiveNotFound(stamp));
      }
      archives := archives - {stamp};
      r := Ok(stamp);
    }

    /** `POST /data/clear-archives` */
    method ClearAllArchives()
      requires Valid()
      modifies this
      ensures Valid() && stationsCached == old(stationsCached)
      ensures State() == ClearAll(old(State()))
    {
      EnsureDefaultDataset();
      StoreOkPreserved(old(State()), "");
      ghost var st1 := State();
      if archiveRoot {
        var has := DatasetHasContent(dflt);
        if has {
          ClearCurrentDataset();
          live := CopyDatasetContents(dflt, live);
          assert live == CopyContents(st1.dflt);
        }
        archives := map[];
        archiveRoot := false;
      }
    }

    /** One entry per archive name, appended in order. */
    static method AppendArchiveEntries(lead: seq<ArchiveEntry>, names: seq<string>, archived: map<string, Listing>)
      returns (entries: seq<ArchiveEntry>)
      requires forall a :: a in names ==> a in archived
      ensures |entries| == |lead| + |names| && entries[..|lead|] == lead
      ensures forall j :: |lead| <= j < |entries| ==> entries[j] == ArchivedEntry(names[j - |lead|], archived[names[j - |lead|]])
    {
      entries := lead;
      var i := 0;
      while i < |names|
        invariant 0 <= i <= |names| && |entries| == |lead| + i && entries[..|lead|] == lead
        invariant forall j :: |lead| <= j < |entries| ==> entries[j] == ArchivedEntry(names[j - |lead|], archived[names[j - |lead|]])
      {
        entries := entries + [ArchivedEntry(names[i], archived[names[i]])];
        i := i + 1;
      }
    }

    /** `_current_dataset_entry()`: the live dataset, when it has content, under the name
        `CurrentNamed` gives it. */
    method CurrentDatasetEntry() returns (r: Option<ArchiveEntry>)
      ensures r.Some? <==> HasContent(live)
      ensures r.Some? ==> && r.value.name.Some? && CurrentNamed(live, r.value.name.value)
                          && r.value == ArchiveEntry(CurrentStamp, [], r.value.name, false, true)
    {
      var hasLive := DatasetHasContent(live);
      if !hasLive {
        return None;
      }
      var name: string;
      var meta := MetaName(live);
      if meta.Some? {
        name := meta.value;
      } else {
        var range := InferAvailableDateRange();
        if range.Err? {
          name := "Current dataset";
        } else {
          var folders := live;
          var oldest :| oldest in folders && IsDateFolder(oldest, folders[oldest]) && DayOf(oldest) == range.value.0;
          var newest :| newest in folders && IsDateFolder(newest, folders[newest]) && DayOf(newest) == range.value.1;
          name := RangeName(oldest, newest);
        }
      }
      return Some(ArchiveEntry(CurrentStamp, [], Some(name), false, true));
    }

    /** `GET /data/archives`: the current dataset (if it has content), the default (if it has
        content), then every archive in name order under its recorded name, marked neither
        current nor default. */
    method ListArchivedDatasets() returns (entries: seq<ArchiveEntry>)
      requires Valid()
      ensures exists currentName ::
        (HasContent(live) ==> CurrentNamed(live, currentName)) && ArchiveListing(entries, LeadEntries(live, dflt, currentName), archives)
    {
      var current := CurrentDatasetEntry();
      var currentName := if current.Some? then current.value.name.value else "";
      var dfltEntry := DefaultArchiveEntry(dflt);
      var lead := (if current.Some? then [current.value] else []) + (if dfltEntry.Some? then [dfltEntry.value] else []);
      assert lead == LeadEntries(live, dflt, currentName);
      var names := ListArchives();
      entries := AppendArchiveEntries(lead, names, archives);
      ArchivesListed(lead, names, archives, entries);
    }

    /** `_infer_available_date_range()`: the oldest and newest date folder, or a 404. */
    method InferAvailableDateRange() returns (r: Result<(int, int), Failure>)
      ensures r.Err? <==> NoDateFolder(live)
      ensures r.Err? ==> r.error == NoDatedFolders
      ensures r.Ok? ==> DaySpan(live, live.Keys, r.value.0, r.value.1)
    {
      var folders := live;
      var found := false;
      var lo, hi := 0, 0;
      var todo := folders.Keys;
      ghost var done: set<string> := {};
      while todo != {}
        invariant done <= folders.Keys && todo == folders.Keys - done
        invariant !found <==> forall n :: n in folders && n in done ==> !IsDateFolder(n, folders[n])
        invariant found ==> DaySpan(folders, done, lo, hi)
        decreases todo
      {
        var n :| n in todo;
        if IsDateFolder(n, folders[n]) {
          var day := DayOf(n);
          if !found {
            DaySpanFirst(folders, done, n);
            lo, hi := day, day;
          } else {
            DaySpanOneMore(folders, done, n, lo, hi);
            if day < lo { lo := day; }
            if day > hi { hi := day; }
          }
          found := true;
        } else if found {
          DaySpanSkip(folders, done, n, lo, hi);
        }
        todo := todo - {n};
        done := done + {n};
      }
      assert done == folders.Keys;
      if !found {
        return Err(NoDatedFolders);
      }
      r := Ok((lo, hi));
    }

    /** `_pick_precompute_range()`: the newest 366 days at most, ending at the newest folder. */
    method PickPrecomputeRange() returns (r: Result<PrecomputeRange, Failure>)
      ensures r.Err? <==> NoDateFolder(live)
      ensures r.Err? ==> r.error == NoDatedFolders
      ensures r.Ok? ==> RangeOf(live, r.value)
    {
      var range := InferAvailableDateRange();
      if range.Err? {
        return Err(range.error);
      }
      var (lo, hi) := range.value;
      r := Ok(ClampToMaxRange(lo, hi));
    }

    /** `_list_train_csv_files(s, e)`: the date folders with `trains.csv` whose day lies in
        `[s, e]`, oldest first; a 404 when there is none. */
    method ListTrainCsvFiles(s: int, e: int) returns (r: Result<seq<string>, Failure>)
      ensures r.Err? <==> forall n :: n in live ==> !SelectedDay(live, s, e, n)
      ensures r.Err? ==> r.error == NoTrainFiles
      ensures r.Ok? ==> forall n :: n in r.value <==> SelectedDay(live, s, e, n)
      ensures r.Ok? ==> forall i, j :: 0 <= i < j < |r.value| ==>
        IsDateDirName(r.value[i]) && IsDateDirName(r.value[j]) && DayOf(r.value[i]) < DayOf(r.value[j])
    {
      var names := SortByName(live.Keys);
      var files := SelectTrainFolders(live, names, s, e);
      if files == [] {
        forall n | n in live
          ensures !SelectedDay(live, s, e, n)
        {
          assert n in names;
        }
        return Err(NoTrainFiles);
      }
      SortedFoldersByDay(files);
      assert files[0] in files;
      r := Ok(files);
    }

    /** The loop of `_list_train_csv_files` over the sorted entry names. */
    static method SelectTrainFolders(live: Listing, names: seq<string>, s: int, e: int) returns (files: seq<string>)
      requires StrictlySorted(names) && forall n :: n in names ==> n in live
      ensures forall n :: n in files <==> n in names && SelectedDay(live, s, e, n)
      ensures StrictlySorted(files)
    {
      files := [];
      var i := 0;
      while i < |names|
        invariant 0 <= i <= |names|
        invariant forall n :: n in files <==> n in names[..i] && SelectedDay(live, s, e, n)
        invariant StrictlySorted(files)
        invariant forall f, j :: f in files && i <= j < |names| ==> Below(f, names[j])
      {
        var n := names[i];
        if IsDateFolder(n, live[n]) && s <= DayOf(n) <= e && HasTrainsCsv(live[n]) {
          SortedAppend(files, n);
          files := files + [n];
        }
        i := i + 1;
        assert names[..i] == names[..i - 1] + [n];
      }
      assert names[..i] == names;
    }

    /** `_copy_dataset_into_webapp(root)`: station files and date folders of the dataset root
        are copied in, then `outputs/runtime/` is created. */
    method CopyDatasetIntoWebapp(t: Tree, root: seq<string>)
      requires Valid()
      modifies this
      ensures Valid() && !stationsCached
      ensures live == WithOutputs(old(live) + Imported(t, root))
      ensures dflt == old(dflt) && archives == old(archives) && archiveRoot == old(archiveRoot)
    {
      var entries := ChildEntries(t, root);
      ImportedReservedFree(entries);
      live := CopyImportable(entries, live);
      live := WithOutputs(live);
      stationsCached := false;
    }

    /** The copy loop of `_copy_dataset_into_webapp`: station files and date folders only. */
    static method CopyImportable(entries: Listing, dest: Listing) returns (r: Listing)
      ensures r == dest + Pick(entries, entries.Keys, Importable)
    {
      r := dest;
      var todo := entries.Keys;
      while todo != {}
        invariant todo <= entries.Keys
        invariant r == dest + Pick(entries, entries.Keys - todo, Importable)
        decreases todo
      {
        var c :| c in todo;
        ghost var before := entries.Keys - todo;
        PickOneMore(dest, entries, before, Importable, c);
        if IsStationFile(c, entries[c]) || IsDateFolder(c, entries[c]) {
          r := r[c := entries[c]];
        }
        todo := todo - {c};
        assert entries.Keys - todo == before + {c};
      }
      assert entries.Keys - todo == entries.Keys;
    }

    /** `_write_dataset_meta(WEBAPP_DATA_DIR, name)` */
    method WriteDatasetMeta(name: Option<string>)
      requires Valid()
      modifies this
      ensures Valid() && stationsCached == old(stationsCached)
      ensures dflt == old(dflt) && archives == old(archives) && archiveRoot == old(archiveRoot)
      ensures live == MetaWritten(old(live), name)
    {
      if name.None? || name.value == "" {
        return;
      }
      if MetaFileName in live && live[MetaFileName].Folder? {
        return;
      }
      live := live[MetaFileName := File(Strip(name.value))];
    }

    /** Writing uploaded bytes to `stations.csv`; opening a folder of that name for writing
        fails, which the handler does not catch. */
    method WriteStationsFile(data: string) returns (ok: bool)
      requires Valid()
      modifies this
      ensures Valid() && stationsCached == old(stationsCached)
      ensures ok <==> !(StationsCsv in old(live) && old(live)[StationsCsv].Folder?)
      ensures live == if ok then old(live)[StationsCsv := File(data)] else old(live)
      ensures dflt == old(dflt) && archives == old(archives) && archiveRoot == old(archiveRoot)
    {
      if StationsCsv in live && live[StationsCsv].Folder? {
        return false;
      }
      live := live[StationsCsv := File(data)];
      ok := true;
    }

    /** The date folders of the live dataset in name order (the upload statistics of `full` mode). */
    method DateFolderNames() returns (names: seq<string>)
      ensures StrictlySorted(names)
      ensures forall n :: n in names <==> n in live && IsDateFolder(n, live[n])
    {
      names := SortByName(set n | n in live && IsDateFolder(n, live[n]));
    }
  }
}
