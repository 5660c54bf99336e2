// Restoring a backup (internal/persistence/backup.go, Restore): a safety
// backup, an extraction next to the store, and a swap of directories, any step
// of which may fail.
module Restore {
  import opened Octets
  import opened Wrappers
  import opened Backups

  /** The range of uint64. */
  const UINT64 := 0x1_0000_0000_0000_0000

  /** What is left of a number in a uint64. */
  function Wrapped(n: int): int {
    n % UINT64
  }

  lemma WrappedMeans(n: int)
    ensures 0 <= n < UINT64 ==> Wrapped(n) == n
  {
  }

  const MAX_INT64 := 0x7fff_ffff_ffff_ffff

  // ------------------------------------------------------------------
  // The size limits
  // ------------------------------------------------------------------

  datatype Limits = Limits(maxEntries: nat, maxBytes: nat, maxFileBytes: nat)
  {
    predicate Representable() {
      maxBytes < UINT64 && maxFileBytes < UINT64
    }
  }

  const DEFAULT_LIMITS := Limits(256, 0x400_0000, 0x100_0000)

  predicate Sizes(files: seq<ZipEntry>) {
    forall i | 0 <= i < |files| :: 0 <= files[i].size < UINT64
  }

  function TotalSize(files: seq<ZipEntry>): int {
    if files == [] then 0
    else TotalSize(files[..|files| - 1]) + if files[|files| - 1].isDir then 0 else files[|files| - 1].size
  }

  /** What the limits are meant to say. */
  predicate Within(l: Limits, files: seq<ZipEntry>) {
    && |files| <= l.maxEntries
    && (forall i | 0 <= i < |files| && !files[i].isDir :: files[i].size <= l.maxFileBytes)
    && TotalSize(files) <= l.maxBytes
  }

  /** The state of the check after some entries: the running uint64 total, or a refusal. */
  function Tested(l: Limits, files: seq<ZipEntry>): Option<int> {
    if files == [] then Some(0)
    else
      var before, f := Tested(l, files[..|files| - 1]), files[|files| - 1];
      if before.None? || f.isDir then before
      else if f.size > l.maxFileBytes then None
      else if before.value > Wrapped(l.maxBytes - f.size) then None
      else Some(Wrapped(before.value + f.size))
  }

  predicate Accepted(l: Limits, files: seq<ZipEntry>) {
    |files| <= l.maxEntries && Tested(l, files).Some?
  }

  lemma {:induction false} TotalSizeGrows(files: seq<ZipEntry>, k: nat)
    requires Sizes(files) && k <= |files|
    ensures 0 <= TotalSize(files[..k]) <= TotalSize(files)
  {
    if k < |files| {
      TotalSizeGrows(files[..|files| - 1], k);
      assert files[..|files| - 1][..k] == files[..k];
    } else {
      assert files[..k] == files;
      if files != [] {
        TotalSizeGrows(files[..|files| - 1], 0);
      }
    }
  }

  /** Directories count for nothing, and otherwise sizes add up. */
  lemma {:induction false} SizesAddUp(a: seq<ZipEntry>, b: seq<ZipEntry>, f: ZipEntry)
    ensures TotalSize([f]) == if f.isDir then 0 else f.size
    ensures TotalSize(a + b) == TotalSize(a) + TotalSize(b)
  {
    assert [f][..0] == [];
    if b == [] {
      assert a + b == a;
    } else {
      SizesAddUp(a, b[..|b| - 1], f);
      assert (a + b)[..|a + b| - 1] == a + b[..|b| - 1];
    }
  }

  /** When one file may not be larger than all together, the total neither overflows nor underflows and is exact. */
  lemma {:induction false} TestedIsExact(l: Limits, files: seq<ZipEntry>)
    requires l.Representable() && l.maxFileBytes <= l.maxBytes && Sizes(files)
    ensures Tested(l, files).Some? <==>
              TotalSize(files) <= l.maxBytes
              && forall i | 0 <= i < |files| && !files[i].isDir :: files[i].size <= l.maxFileBytes
    ensures Tested(l, files).Some? ==> Tested(l, files).value == TotalSize(files)
  {
    if files != [] {
      var init, f := files[..|files| - 1], files[|files| - 1];
      TestedIsExact(l, init);
      TotalSizeGrows(files, |init|);
      assert forall i | 0 <= i < |init| :: files[i] == init[i];
      hide Wrapped;
      if !f.isDir && f.size <= l.maxFileBytes {
        WrappedMeans(l.maxBytes - f.size);
        WrappedMeans(TotalSize(init) + f.size);
      }
    }
  }

  /**
   * The check accepts exactly the archives within the limits, for every archive, if and only if a single file may not
   * be larger than everything together; otherwise the subtraction underflows.
   */
  lemma LimitsExactIff(l: Limits)
    requires l.Representable() && l.maxEntries > 0
    ensures l.maxFileBytes <= l.maxBytes <==>
              forall files | Sizes(files) :: Accepted(l, files) <==> Within(l, files)
  {
    if l.maxFileBytes <= l.maxBytes {
      forall files | Sizes(files)
        ensures Accepted(l, files) <==> Within(l, files)
      {
        TestedIsExact(l, files);
      }
    } else {
      var huge := ZipEntry(None, false, l.maxBytes + 1, []);
      var files := [huge];
      assert files[..|files| - 1] == [];
      assert TotalSize(files) == TotalSize([]) + huge.size;
      assert Sizes(files) && Accepted(l, files) && !Within(l, files);
    }
  }

  /** With the limits as shipped: 256 entries, 16 MiB for one file, 64 MiB for all of them. */
  lemma DefaultLimitsExact(files: seq<ZipEntry>)
    requires Sizes(files)
    ensures Accepted(DEFAULT_LIMITS, files)
       <==> && |files| <= 256 && TotalSize(files) <= 64 * 1024 * 1024
            && forall i | 0 <= i < |files| && !files[i].isDir :: files[i].size <= 16 * 1024 * 1024
  {
    LimitsExactIff(DEFAULT_LIMITS);
  }

  method ValidateRestoreArchive(l: Limits, files: seq<ZipEntry>) returns (ok: bool)
    requires l.Representable() && Sizes(files)
    ensures ok <==> Accepted(l, files)
    ensures l.maxFileBytes <= l.maxBytes ==> (ok <==> Within(l, files))
  {
    if l.maxFileBytes <= l.maxBytes {
      TestedIsExact(l, files);
    }
    if |files| > l.maxEntries {
      return false;
    }
    var total := 0;
    for i := 0 to |files|
      invariant Tested(l, files[..i]) == Some(total)
    {
      var f := files[i];
      assert files[..i + 1][..i] == files[..i];
      TestedStaysNone(l, files, i + 1);
      if f.isDir {
        continue;
      }
      if f.size > l.maxFileBytes {
        return false;
      }
      if total > Wrapped(l.maxBytes - f.size) {
        return false;
      }
      total := Wrapped(total + f.size);
    }
    assert files[..|files|] == files;
    return true;
  }

  lemma {:induction false} TestedStaysNone(l: Limits, files: seq<ZipEntry>, k: nat)
    requires k <= |files|
    ensures Tested(l, files[..k]).None? ==> Tested(l, files).None?
  {
    if k < |files| {
      assert files[..|files| - 1][..k] == files[..k];
      TestedStaysNone(l, files[..|files| - 1], k);
    } else {
      assert files[..k] == files;
    }
  }

  // ------------------------------------------------------------------
  // Directories and archives
  // ------------------------------------------------------------------

  type Files = map<Bytes, Bytes>

  /** A store directory: its files outside backups/, and the backups directory if there is one. */
  datatype Dir = Dir(files: Files, backups: Option<Shelf>)

  const BACKUPS: Bytes := [0x62, 0x61, 0x63, 0x6b, 0x75, 0x70, 0x73]

  const SLASH: byte := 0x2f

  /** A path that is backups or lies below it. */
  predicate InBackups(path: Bytes) {
    path == BACKUPS || BACKUPS + [SLASH] <= path
  }

  /** The files of an archive, later entries replacing earlier ones of the same path. */
  function Contents(entries: seq<ZipEntry>): Files {
    if entries == [] then map[]
    else
      var before, e := Contents(entries[..|entries| - 1]), entries[|entries| - 1];
      if e.isDir || e.clean.None? then before else before[e.clean.value := e.data]
  }

  ghost predicate LastOf(entries: seq<ZipEntry>, i: int, path: Bytes) {
    && 0 <= i < |entries| && !entries[i].isDir && entries[i].clean == Some(path)
    && forall j | i < j < |entries| :: entries[j].isDir || entries[j].clean != Some(path)
  }

  /** A path is there exactly when some file entry has it, and the last such entry says what it holds. */
  lemma {:induction false} ContentsExactly(entries: seq<ZipEntry>, path: Bytes)
    ensures path in Contents(entries) <==> exists i :: LastOf(entries, i, path)
    ensures forall i | LastOf(entries, i, path) ::
              path in Contents(entries) && Contents(entries)[path] == entries[i].data
  {
    if entries != [] {
      var n := |entries| - 1;
      var before, e := entries[..n], entries[n];
      ContentsExactly(before, path);
      hide Contents;
      ContentsStep(entries);
      if !e.isDir && e.clean == Some(path) {
        assert LastOf(entries, n, path);
        assert forall i | LastOf(entries, i, path) :: i == n;
      } else {
        forall i
          ensures LastOf(entries, i, path) <==> LastOf(before, i, path)
        {
          assert forall j | 0 <= j < n :: before[j] == entries[j];
        }
      }
    }
  }

  lemma ContentsStep(entries: seq<ZipEntry>)
    requires entries != []
    ensures var before, e := Contents(entries[..|entries| - 1]), entries[|entries| - 1];
            Contents(entries) == if e.isDir || e.clean.None? then before else before[e.clean.value := e.data]
  {
  }

  predicate SafePaths(entries: seq<ZipEntry>) {
    forall i | 0 <= i < |entries| :: entries[i].clean.Some? && !InBackups(entries[i].clean.value)
  }

  /** No file is too long for an archive's 64-bit size field. */
  predicate Storable(files: Files) {
    forall path | path in files :: |files[path]| < UINT64
  }

  /** Archives every file once; what comes out is what went in. */
  method ZipStore(files: Files) returns (entries: seq<ZipEntry>)
    requires Storable(files)
    ensures Contents(entries) == files && |entries| == |files| && Sizes(entries)
  {
    hide Contents, Sizes;
    entries := [];
    var rest := files.Keys;
    NothingZipped(files);
    while rest != {}
      invariant rest <= files.Keys && Contents(entries) == files - rest && Sizes(entries)
      invariant |entries| + |rest| == |files.Keys|
      decreases |rest|
    {
      var path :| path in rest;
      var e := ZipEntry(Some(path), false, |files[path]|, files[path]);
      OneZipped(files, entries, rest, path);
      entries := entries + [e];
      rest := rest - {path};
    }
  }

  lemma NothingZipped(files: Files)
    ensures Contents([]) == files - files.Keys && Sizes([])
  {
  }

  lemma OneZipped(files: Files, entries: seq<ZipEntry>, rest: set<Bytes>, path: Bytes)
    requires path in rest && rest <= files.Keys && Contents(entries) == files - rest && Sizes(entries)
    requires |files[path]| < UINT64
    ensures var longer := entries + [ZipEntry(Some(path), false, |files[path]|, files[path])];
            Contents(longer) == files - (rest - {path}) && Sizes(longer)
  {
    var longer := entries + [ZipEntry(Some(path), false, |files[path]|, files[path])];
    assert longer[..|longer| - 1] == entries;
    assert (files - rest)[path := files[path]] == files - (rest - {path});
  }

  // ------------------------------------------------------------------
  // Restoring
  // ------------------------------------------------------------------

  /** Where the archive to restore is: among the store's own backups, or elsewhere. */
  datatype Source = Own(name: Bytes) | Elsewhere(archive: Option<Archive>)

  datatype Reason = Cancelled | NoSafetyBackup | NoArchive | OverLimits | UnsafePath | NotExtracted
                  | NotSetAside | NotSwapped(rolledBack: bool) | BackupsNotKept

  datatype Result = Restored | Failed(why: Reason)

  /** Which steps fail, and what a failing removal leaves behind. */
  datatype Faults = Faults(cancelled: bool, mkdirBackups: bool, statName: bool, zip: bool, removePartial: bool,
                           readBackups: bool, removals: nat, tempStays: Option<Files>, asideStays: Option<Dir>,
                           mkdirTemp: bool, extractAt: Option<nat>, removeTemp: bool, setAside: bool, swapIn: bool,
                           rollBack: bool, statBackups: bool, moveBackups: bool, asideLeft: Option<Dir>)

  const NO_FAULTS :=
    Faults(false, false, false, false, false, false, 10000, None, None, false, None, false, false, false, false, false,
           false, None)

  /** What clearing a directory leaves: `stays` of it, if it is there at all. */
  function Leftover<T>(d: Option<T>, stays: Option<T>): Option<T> {
    if d.None? then None else stays
  }

  function OrEmpty(files: Option<Files>): Files {
    if files.None? then map[] else files.value
  }

  /** What extracting gives, over what clearing the temporary directory left. */
  function Extracted(temp: Option<Files>, f: Faults, entries: seq<ZipEntry>): Files {
    OrEmpty(Leftover(temp, f.tempStays)) + Contents(entries)
  }

  /** The restore was refused before it cleared the two temporary directories of its second. */
  predicate RefusedEarly(r: Result) {
    && r.Failed?
    && (r.why.Cancelled? || r.why.NoSafetyBackup? || r.why.NoArchive? || r.why.OverLimits? || r.why.UnsafePath?)
  }

  function FilesOf(d: Option<Dir>): Files {
    if d.None? then map[] else d.value.files
  }

  function ShelfOf(d: Option<Dir>): Shelf {
    if d.None? || d.value.backups.None? then map[] else d.value.backups.value
  }

  /** The directory holds these very files. */
  predicate Holds(d: Option<Dir>, files: Files) {
    d.Some? && d.value.files == files
  }

  /** The archive holds exactly these files, once each. */
  predicate SafetyCopy(a: Archive, files: Files) {
    a.Good? && Contents(a.entries) == files && |a.entries| == |files| && Sizes(a.entries)
  }

  /** The size fields of an archive are 64-bit numbers. */
  predicate Readable(a: Archive) {
    a.Good? ==> Sizes(a.entries)
  }

  /** The safety backup meets no failure. */
  predicate Undisturbed(f: Faults, shelf: Shelf) {
    !f.mkdirBackups && !f.statName && !f.zip && !f.readBackups && |shelf| <= DEFAULT_RETENTION + f.removals
  }

  /** The extracted data keeps to the size limit of one file, which has to leave room for one byte more in an int64. */
  predicate Fits(l: Limits, entries: seq<ZipEntry>) {
    forall i | 0 <= i < |entries| && !entries[i].isDir :: |entries[i].data| <= l.maxFileBytes < MAX_INT64
  }

  /** Every entry can be extracted. */
  predicate Extracts(l: Limits, entries: seq<ZipEntry>, f: Faults) {
    !f.mkdirTemp && (f.extractAt.None? || f.extractAt.value >= |entries|) && Fits(l, entries)
  }

  /** A directory that holds something cannot be renamed onto. */
  predicate Blocks(aside: Option<Dir>) {
    aside.Some? && aside.value != Dir(map[], None)
  }

  /** The archive the caller chose, as it is after the safety backup was added but before pruning. */
  function Chosen(from: Source, shelf: Shelf): Option<Archive> {
    match from
    case Own(n) => if n in shelf then Some(shelf[n].archive) else None
    case Elsewhere(a) => a
  }

  /** The chosen archive is one of the store's own, and with the new one it has as many later ones as are kept. */
  predicate PrunedAway(from: Source, shelf: Shelf) {
    from.Own? && from.name in shelf && |LaterThan(shelf, from.name)| >= DEFAULT_RETENTION
  }

  /** There is such an archive, and it passes the checks. */
  predicate Openable(a: Option<Archive>, l: Limits) {
    a.Some? && a.value.Good? && Accepted(l, a.value.entries) && SafePaths(a.value.entries)
  }

  /** And all of it can be extracted. */
  predicate Restorable(a: Option<Archive>, l: Limits) {
    Openable(a, l) && Fits(l, a.value.entries)
  }

  /** What the checks make of an archive. */
  function Checked(a: Option<Archive>, l: Limits): Result {
    if a.None? || a.value.Broken? then Failed(NoArchive)
    else if !Accepted(l, a.value.entries) then Failed(OverLimits)
    else if !SafePaths(a.value.entries) then Failed(UnsafePath)
    else Restored
  }

  /** What comes of a restore up to the swap; `shelf` holds the safety backup already. */
  function Prepared(from: Source, shelf: Shelf, l: Limits, f: Faults): Result {
    if f.cancelled then Failed(Cancelled)
    else if !Undisturbed(f, shelf) then Failed(NoSafetyBackup)
    else if PrunedAway(from, shelf) then Failed(NoArchive)
    else if Checked(Chosen(from, shelf), l) != Restored then Checked(Chosen(from, shelf), l)
    else if !Extracts(l, Chosen(from, shelf).value.entries, f) then Failed(NotExtracted)
    else Restored
  }

  /** What comes of a restore; `aside` is what clearing left of the directory that the store is to be renamed to. */
  function Answer(from: Source, shelf: Shelf, l: Limits, f: Faults, aside: Option<Dir>): Result {
    if Prepared(from, shelf, l, f) != Restored then Prepared(from, shelf, l, f)
    else if f.setAside || Blocks(aside) then Failed(NotSetAside)
    else if f.swapIn then Failed(NotSwapped(!f.rollBack))
    else if f.moveBackups && !f.statBackups then Failed(BackupsNotKept)
    else Restored
  }

  /** Of the backups that the pruning is to keep, none is gone. */
  ghost predicate NewestKept(was: Shelf, name: Bytes, modTime: int, copy: Archive, now: Shelf) {
    forall n | n in was && n in Retained(was[name := Backup(modTime, copy)], DEFAULT_RETENTION) ::
      n in now && (n != name ==> now[n] == was[n])
  }

  lemma AllKept(was: Shelf, name: Bytes, modTime: int, copy: Archive, now: Shelf)
    requires name !in was && forall n | n in was :: n in now && now[n] == was[n]
    ensures NewestKept(was, name, modTime, copy, now)
  {
    hide Retained;
  }

  lemma PrunedKeepsNewest(was: Shelf, name: Bytes, modTime: int, copy: Archive, now: Shelf)
    requires var z := was[name := Backup(modTime, copy)];
             && (forall n | n in Retained(z, DEFAULT_RETENTION) :: n in now)
             && (forall n | n in now :: n in z && now[n] == z[n])
    ensures NewestKept(was, name, modTime, copy, now)
  {
    hide Retained;
  }

  /** A restore is refused before it clears anything exactly in these cases. */
  lemma RefusedEarlyExactly(from: Source, shelf: Shelf, l: Limits, f: Faults, aside: Option<Dir>)
    ensures RefusedEarly(Answer(from, shelf, l, f, aside))
       <==> f.cancelled || !Undisturbed(f, shelf) || PrunedAway(from, shelf) || !Openable(Chosen(from, shelf), l)
  {
  }

  /** No path is unsafe, none is "backups" and none begins with "backups/". */
  ghost predicate PathsKeepOut(entries: seq<ZipEntry>) {
    forall e | e in entries ::
      && e.clean.Some? && e.clean.value != [98, 97, 99, 107, 117, 112, 115]
      && !([98, 97, 99, 107, 117, 112, 115, 47] <= e.clean.value)
  }

  lemma SafePathsExactly(entries: seq<ZipEntry>)
    ensures SafePaths(entries) <==> PathsKeepOut(entries)
  {
    assert BACKUPS + [SLASH] == [98, 97, 99, 107, 117, 112, 115, 47];
    assert forall i | 0 <= i < |entries| :: entries[i] in entries;
  }

  /** Why an archive is refused: it is not there, then its sizes, then its paths. */
  lemma ChecksExactly(a: Option<Archive>, l: Limits)
    requires l.Representable() && l.maxFileBytes <= l.maxBytes && (a.Some? ==> Readable(a.value))
    ensures Checked(a, l) == Failed(NoArchive) <==> a.None? || a.value.Broken?
    ensures Checked(a, l) == Failed(OverLimits) <==> a.Some? && a.value.Good? && !Within(l, a.value.entries)
    ensures Checked(a, l) == Failed(UnsafePath)
       <==> a.Some? && a.value.Good? && Within(l, a.value.entries) && !PathsKeepOut(a.value.entries)
    ensures Checked(a, l) == Restored
       <==> a.Some? && a.value.Good? && Within(l, a.value.entries) && PathsKeepOut(a.value.entries)
  {
    if a.Some? && a.value.Good? {
      TestedIsExact(l, a.value.entries);
      SafePathsExactly(a.value.entries);
      hide Tested, TotalSize, SafePaths, PathsKeepOut;
    }
  }

  /** A restore succeeds exactly when nothing goes wrong that is not passed over. */
  lemma RestoredExactly(from: Source, shelf: Shelf, l: Limits, f: Faults, aside: Option<Dir>)
    ensures Answer(from, shelf, l, f, aside) == Restored
       <==> && !f.cancelled && !f.mkdirBackups && !f.statName && !f.zip && !f.readBackups
            && |shelf| <= 10 + f.removals
            && (from.Own? ==> from.name in shelf && |LaterThan(shelf, from.name)| < 10)
            && (var a := if from.Own? then Some(shelf[from.name].archive) else from.archive;
                && a.Some? && a.value.Good? && Accepted(l, a.value.entries) && PathsKeepOut(a.value.entries)
                && (forall i | 0 <= i < |a.value.entries| && !a.value.entries[i].isDir ::
                      |a.value.entries[i].data| <= l.maxFileBytes < MAX_INT64)
                && !f.mkdirTemp && (f.extractAt.None? || f.extractAt.value >= |a.value.entries|))
            && !f.setAside && (aside.None? || (aside.value.files == map[] && aside.value.backups == None))
            && !f.swapIn && (f.moveBackups ==> f.statBackups)
  {
    hide LaterThan, Accepted;
    var a := Chosen(from, shelf);
    if a.Some? && a.value.Good? {
      SafePathsExactly(a.value.entries);
    }
    hide SafePaths, PathsKeepOut;
  }

  predicate AllReadable(z: Shelf) {
    forall n | n in z :: Readable(z[n].archive)
  }

  lemma NothingYet(l: Limits, entries: seq<ZipEntry>)
    ensures Contents(entries[..0]) == map[] && Fits(l, entries[..0])
  {
  }

  lemma SafeAt(entries: seq<ZipEntry>, i: nat)
    requires SafePaths(entries) && i < |entries|
    ensures entries[i].clean.Some?
  {
  }

  /** One more entry. */
  lemma NextEntry(l: Limits, entries: seq<ZipEntry>, i: nat)
    requires i < |entries|
    ensures var before, e := Contents(entries[..i]), entries[i];
            Contents(entries[..i + 1]) == if e.isDir || e.clean.None? then before else before[e.clean.value := e.data]
    ensures var e := entries[i];
            Fits(l, entries[..i + 1])
            <==> Fits(l, entries[..i]) && (e.isDir || |e.data| <= l.maxFileBytes < MAX_INT64)
    ensures Fits(l, entries) ==> Fits(l, entries[..i + 1])
  {
    hide SafePaths;
    assert entries[..i + 1][..i] == entries[..i];
    assert forall k | 0 <= k < i :: entries[..i + 1][k] == entries[..i][k];
  }

  method CheckPaths(entries: seq<ZipEntry>) returns (ok: bool)
    ensures ok <==> SafePaths(entries)
  {
    for i := 0 to |entries|
      invariant SafePaths(entries[..i])
    {
      if entries[i].clean.None? {
        return false;
      }
      if BACKUPS + [SLASH] <= entries[i].clean.value || entries[i].clean.value == BACKUPS {
        return false;
      }
    }
    return true;
  }

  class Store {
    var live: Option<Dir>   // the store directory
    var temp: Option<Files> // .restore-new of this second
    var aside: Option<Dir>  // .restore-old of this second

    constructor (live: Option<Dir>)
      ensures this.live == live && temp == None && aside == None
    {
      this.live := live;
      temp := None;
      aside := None;
    }

    /** The files are whole, in the store directory or in the one set aside. */
    predicate Whole(files: Files)
      reads this
    {
      Holds(live, files) || Holds(aside, files)
    }

    /** backupLocked: archives the store under an unused name, then prunes. */
    method BackupLocked(name: Bytes, modTime: int, f: Faults) returns (ok: bool, ghost copy: Archive)
      requires name !in ShelfOf(live) && Storable(FilesOf(live))
      modifies `live
      ensures FilesOf(live) == FilesOf(old(live)) && (old(live).Some? ==> live.Some?)
      ensures ok ==>
                && live.Some? && live.value.backups.Some? && SafetyCopy(copy, FilesOf(old(live)))
                && ShelfOf(live) == Retained(ShelfOf(old(live))[name := Backup(modTime, copy)], DEFAULT_RETENTION)
      ensures ok <==> Undisturbed(f, ShelfOf(old(live))[name := Backup(modTime, copy)])
      ensures NewestKept(ShelfOf(old(live)), name, modTime, copy, ShelfOf(live))
    {
      hide NewestKept, Retained;
      copy := Broken;
      var files, shelf := FilesOf(live), ShelfOf(live);
      AllKept(shelf, name, modTime, copy, shelf);
      if f.mkdirBackups {
        return false, copy;
      }
      live := Some(Dir(files, Some(shelf)));
      if f.statName {
        return false, copy;
      }
      if f.zip {
        if f.removePartial {
          live := Some(Dir(files, Some(shelf[name := Backup(modTime, Broken)])));
          AllKept(shelf, name, modTime, copy, ShelfOf(live));
        }
        return false, copy;
      }
      var entries := ZipStore(files);
      copy := Good(entries);
      var left;
      left, ok := Prune(shelf[name := Backup(modTime, Good(entries))], DEFAULT_RETENTION, !f.readBackups, f.removals);
      PrunedKeepsNewest(shelf, name, modTime, copy, left);
      live := Some(Dir(files, Some(left)));
    }

    /** Opens the archive, now that the safety backup has pruned the backups, and checks sizes and paths. */
    method OpenArchive(from: Source, l: Limits) returns (r: Result, entries: seq<ZipEntry>)
      requires l.Representable() && AllReadable(ShelfOf(live))
      requires from.Elsewhere? && from.archive.Some? ==> Readable(from.archive.value)
      ensures r == Checked(Chosen(from, ShelfOf(live)), l)
      ensures r != Failed(NoArchive) ==> entries == Chosen(from, ShelfOf(live)).value.entries
    {
      entries := [];
      var archive :=
        match from
        case Own(n) => if n in ShelfOf(live) then Some(ShelfOf(live)[n].archive) else None
        case Elsewhere(a) => a;
      if archive.None? || archive.value.Broken? {
        return Failed(NoArchive), entries;
      }
      entries := archive.value.entries;
      var ok := ValidateRestoreArchive(l, entries);
      if !ok {
        return Failed(OverLimits), entries;
      }
      ok := CheckPaths(entries);
      if !ok {
        return Failed(UnsafePath), entries;
      }
      return Restored, entries;
    }

    /** Extracts the entries into the temporary directory; a failure removes it again, as far as that works. */
    method Extract(l: Limits, entries: seq<ZipEntry>, f: Faults) returns (ok: bool)
      requires SafePaths(entries)
      modifies `temp
      ensures ok ==> temp == Some(OrEmpty(old(temp)) + Contents(entries))
      ensures ok <==> Extracts(l, entries, f)
    {
      hide Contents, Fits, SafePaths;
      NothingYet(l, entries);
      if f.mkdirTemp {
        return false;
      }
      ghost var left := OrEmpty(temp);
      if temp.None? {
        temp := Some(map[]);
      }
      assert temp.value == left + map[];
      for i := 0 to |entries|
        invariant temp == Some(left + Contents(entries[..i]))
        invariant (f.extractAt.None? || f.extractAt.value >= i) && Fits(l, entries[..i])
      {
        var e := entries[i];
        NextEntry(l, entries, i);
        if f.extractAt == Some(i) || (!e.isDir && (l.maxFileBytes >= MAX_INT64 || |e.data| > l.maxFileBytes)) {
          if !f.removeTemp {
            temp := None;
          }
          return false;
        }
        if !e.isDir {
          SafeAt(entries, i);
          ghost var before := Contents(entries[..i]);
          assert (left + before)[e.clean.value := e.data] == left + before[e.clean.value := e.data];
          temp := Some(temp.value[e.clean.value := e.data]);
        }
      }
      assert entries[..|entries|] == entries;
      return true;
    }

    /**
     * Renames the store aside and the temporary directory into its place, rolling back if the second step fails. A
     * directory cannot be renamed onto one that holds something.
     */
    method Swap(f: Faults) returns (r: Result)
      requires live.Some? && temp.Some?
      modifies this
      ensures r == Restored ==> live == Some(Dir(old(temp).value, None)) && aside == old(live) && temp == None
      ensures r == Failed(NotSetAside) ==> live == old(live) && aside == old(aside)
      ensures r == Failed(NotSwapped(true)) ==> live == old(live) && aside == None
      ensures r == Failed(NotSwapped(false)) ==> live == None && aside == old(live)
      ensures r.Failed? && r.why.NotSwapped? ==> temp == old(temp)
      ensures r == if f.setAside || Blocks(old(aside)) then Failed(NotSetAside)
                   else if f.swapIn then Failed(NotSwapped(!f.rollBack))
                   else Restored
    {
      if f.setAside || (aside.Some? && aside.value != Dir(map[], None)) {
        if !f.removeTemp {
          temp := None;
        }
        return Failed(NotSetAside);
      }
      aside := live;
      live := None;
      if f.swapIn {
        if f.rollBack {
          return Failed(NotSwapped(false));
        }
        live := aside;
        aside := None;
        return Failed(NotSwapped(true));
      }
      live := Some(Dir(temp.value, None));
      temp := None;
      return Restored;
    }

    /** Carries the backups over to the new store; a failing Stat is taken for "there are none". */
    method KeepBackups(f: Faults) returns (ok: bool)
      requires live.Some? && aside.Some? && live.value.backups == None && aside.value.backups.Some?
      modifies `live, `aside
      ensures live.Some? && aside.Some? && live.value.files == old(live).value.files
      ensures aside.value.files == old(aside).value.files
      ensures ok ==> live.value.backups == if f.statBackups then None else old(aside).value.backups
      ensures !ok ==> live == old(live) && aside == old(aside)
      ensures ok <==> f.statBackups || !f.moveBackups
    {
      if !f.statBackups && aside.value.backups.Some? {
        if f.moveBackups {
          return false;
        }
        live := Some(live.value.(backups := aside.value.backups));
        aside := Some(aside.value.(backups := None));
      }
      return true;
    }

    /**
     * Everything before the swap: the safety backup, the checks, clearing what an earlier restore of the same second
     * left, and the extraction beside the store.
     */
    method Prepare(from: Source, name: Bytes, modTime: int, l: Limits, f: Faults)
      returns (r: Result, ghost copy: Archive, ghost restored: Archive)
      requires l.Representable() && name !in ShelfOf(live)
      requires Storable(FilesOf(live)) && AllReadable(ShelfOf(live))
      requires from.Elsewhere? && from.archive.Some? ==> Readable(from.archive.value)
      modifies this
      ensures FilesOf(live) == FilesOf(old(live)) && (old(live).Some? ==> live.Some?)
      ensures r == Prepared(from, ShelfOf(old(live))[name := Backup(modTime, copy)], l, f)
      ensures RefusedEarly(r) ==> aside == old(aside) && temp == old(temp)
      ensures r == Failed(Cancelled) ==> live == old(live)
      ensures NewestKept(ShelfOf(old(live)), name, modTime, copy, ShelfOf(live))
      ensures r !in {Failed(Cancelled), Failed(NoSafetyBackup)} ==>
                ShelfOf(live) == Retained(ShelfOf(old(live))[name := Backup(modTime, copy)], DEFAULT_RETENTION)
      ensures !RefusedEarly(r) ==> live.Some? && aside == Leftover(old(aside), f.asideStays)
      ensures var shelf := ShelfOf(old(live))[name := Backup(modTime, copy)];
              && (r == Restored ==>
                    && live == Some(Dir(FilesOf(old(live)), Some(Retained(shelf, DEFAULT_RETENTION))))
                    && restored.Good?
                    && temp == Some(Extracted(old(temp), f, restored.entries))
                    && SafePaths(restored.entries) && Accepted(l, restored.entries)
                    && Chosen(from, shelf) == Some(restored))
              && (r !in {Failed(Cancelled), Failed(NoSafetyBackup)} ==> SafetyCopy(copy, FilesOf(old(live))))
              && (PrunedAway(from, shelf) && Undisturbed(f, shelf) && !f.cancelled ==>
                    && r == Failed(NoArchive) && from.name !in ShelfOf(live)
                    && ShelfOf(live) == Retained(shelf, DEFAULT_RETENTION))
    {
      hide Retained, LaterThan, Contents, Accepted, SafePaths, Sizes, Fits, Storable, Undisturbed, NewestKept;
      copy, restored := Broken, Broken;
      AllKept(ShelfOf(live), name, modTime, copy, ShelfOf(live));
      if f.cancelled {
        return Failed(Cancelled), copy, restored;
      }
      var ok;
      ok, copy := BackupLocked(name, modTime, f);
      if !ok {
        return Failed(NoSafetyBackup), copy, restored;
      }
      ghost var shelf := ShelfOf(old(live))[name := Backup(modTime, copy)];
      RetainedMeans(shelf, DEFAULT_RETENTION);
      var entries;
      r, entries := OpenArchive(from, l);
      if r != Restored {
        return r, copy, restored;
      }
      restored := Good(entries);
      temp, aside := Leftover(temp, f.tempStays), Leftover(aside, f.asideStays);
      ok := Extract(l, entries, f);
      if !ok {
        return Failed(NotExtracted), copy, restored;
      }
    }

    /**
     * Restores an archive over the store. Whatever fails, the files from before are whole, and until the swap they
     * have not moved. After success the store holds exactly the archive's files, over what a failing removal left of
     * an earlier extraction, and the backups taken so far unless the test for their directory failed: then they are
     * gone, although success is reported. An archive chosen among the store's own backups is gone before it is opened
     * exactly when the safety backup leaves it with too many later ones. What an earlier restore of the same second
     * set aside is deleted as soon as the archive has passed its checks. Answer says which of all this happens.
     */
    method Restore(from: Source, name: Bytes, modTime: int, l: Limits, f: Faults)
      returns (r: Result, ghost copy: Archive, ghost restored: Archive)
      requires l.Representable() && name !in ShelfOf(live)
      requires Storable(FilesOf(live)) && AllReadable(ShelfOf(live))
      requires from.Elsewhere? && from.archive.Some? ==> Readable(from.archive.value)
      modifies this
      ensures r == Answer(from, ShelfOf(old(live))[name := Backup(modTime, copy)], l, f,
                          Leftover(old(aside), f.asideStays))
      ensures r != Restored ==> Whole(FilesOf(old(live))) || (old(live) == None && live == None)
      ensures r != Restored && r.why !in {NotSwapped(false), BackupsNotKept} ==>
                && FilesOf(live) == FilesOf(old(live))
                && NewestKept(ShelfOf(old(live)), name, modTime, copy, ShelfOf(live))
      ensures r == Failed(Cancelled) ==> live == old(live) && temp == old(temp) && aside == old(aside)
      ensures r.Failed? && r.why in {NoArchive, OverLimits, UnsafePath, NotExtracted, NotSetAside, NotSwapped(true)} ==>
                ShelfOf(live) == Retained(ShelfOf(old(live))[name := Backup(modTime, copy)], DEFAULT_RETENTION)
      ensures r == Restored ==>
                && live.Some? && restored.Good? && SafePaths(restored.entries) && Accepted(l, restored.entries)
                && (live.value.backups == None <==> f.statBackups)
      ensures r !in {Failed(Cancelled), Failed(NoSafetyBackup)} ==> SafetyCopy(copy, FilesOf(old(live)))
      ensures r in {Restored, Failed(BackupsNotKept)} ==>
                && live.Some? && restored.Good?
                && live.value.files == Extracted(old(temp), f, restored.entries)
      ensures r.Failed? && r.why.NotSwapped? ==>
                restored.Good? && temp == Some(Extracted(old(temp), f, restored.entries))
      ensures RefusedEarly(r) ==> aside == old(aside) && temp == old(temp) && (old(live).Some? ==> live.Some?)
      ensures r in {Failed(NotExtracted), Failed(NotSetAside)} ==> aside == Leftover(old(aside), f.asideStays)
      ensures r == Failed(NotSwapped(true)) ==> aside == None
      ensures !RefusedEarly(r) ==> (live == None <==> r == Failed(NotSwapped(false)))
      ensures r == Restored ==> aside == f.asideLeft && temp == None
      ensures var shelf := ShelfOf(old(live))[name := Backup(modTime, copy)];
              && (r in {Restored, Failed(BackupsNotKept)} || (r.Failed? && r.why.NotSwapped?) ==>
                    Chosen(from, shelf) == Some(restored))
              && (r == Restored && !f.statBackups ==>
                    live.value.backups == Some(Retained(shelf, DEFAULT_RETENTION)))
              && (r in {Failed(BackupsNotKept), Failed(NotSwapped(false))} ==>
                    aside == Some(Dir(FilesOf(old(live)), Some(Retained(shelf, DEFAULT_RETENTION)))))
              && (PrunedAway(from, shelf) && Undisturbed(f, shelf) && !f.cancelled ==>
                    && r == Failed(NoArchive) && from.name !in ShelfOf(live)
                    && ShelfOf(live) == Retained(shelf, DEFAULT_RETENTION))
    {
      hide Retained, PrunedAway, Contents, Accepted, SafePaths, SafetyCopy, Restorable, Storable, Undisturbed, Chosen;
      hide NewestKept;
      r, copy, restored := Prepare(from, name, modTime, l, f);
      if r != Restored {
        return r, copy, restored;
      }
      r := Swap(f);
      if r != Restored {
        return r, copy, restored;
      }
      var ok := KeepBackups(f);
      if !ok {
        return Failed(BackupsNotKept), copy, restored;
      }
      aside := f.asideLeft;
    }
  }

  // ------------------------------------------------------------------
  // Bringing a backup back
  // ------------------------------------------------------------------

  /** What makes a backup restorable under the limits. */
  ghost predicate InOrder(a: Archive, l: Limits) {
    && a.Good? && l.maxFileBytes <= l.maxBytes && l.maxFileBytes < MAX_INT64
    && Within(l, a.entries) && PathsKeepOut(a.entries)
    && forall e | e in a.entries && !e.isDir :: |e.data| <= l.maxFileBytes
  }

  /**
   * Restoring a backup of the store itself, when nothing fails: if fewer than ten backups are newer, the safety backup
   * among them, its files are what the store then holds. The store's backups are kept, the safety backup among them.
   */
  method RestoreOwnBackup(s: Store, n: Bytes, name: Bytes, modTime: int, l: Limits)
    returns (r: Result, ghost copy: Archive)
    requires l.Representable() && name !in ShelfOf(s.live) && Storable(FilesOf(s.live)) && AllReadable(ShelfOf(s.live))
    requires n in ShelfOf(s.live) && InOrder(ShelfOf(s.live)[n].archive, l)
    requires var z := ShelfOf(s.live)[name := Backup(modTime, Broken)];
             |set m | m in z && (z[n].modTime < z[m].modTime || (z[n].modTime == z[m].modTime && LexLess(n, m)))| < 10
    modifies s
    ensures r == Restored && s.temp == None && s.aside == None
    ensures s.live.Some? && s.live.value.files == Contents(ShelfOf(old(s.live))[n].archive.entries)
    ensures SafetyCopy(copy, FilesOf(old(s.live)))
    ensures Newest(ShelfOf(old(s.live))[name := Backup(modTime, copy)], ShelfOf(s.live), 10)
  {
    var shelf := ShelfOf(s.live);
    ghost var archive := shelf[n].archive;
    OwnIsRestorable(archive, l);
    hide InOrder, Contents, Retained, Storable, AllReadable, SafetyCopy, Accepted, SafePaths, LaterThan, Fits, Newest;
    var f := NO_FAULTS.(removals := |shelf| + 1);
    ghost var restored;
    r, copy, restored := s.Restore(Own(n), name, modTime, l, f);
    OneMore(shelf, name, Backup(modTime, copy));
    LaterByTime(shelf, name, modTime, Broken, copy, n);
    RetainedAreNewest(shelf[name := Backup(modTime, copy)], 10);
    NothingUnder(Contents(archive.entries));
  }

  lemma OwnIsRestorable(a: Archive, l: Limits)
    requires InOrder(a, l) && l.Representable() && Readable(a)
    ensures Restorable(Some(a), l)
  {
    SafePathsExactly(a.entries);
    TestedIsExact(l, a.entries);
    hide SafePaths, Tested, TotalSize;
    assert forall i | 0 <= i < |a.entries| :: a.entries[i] in a.entries;
  }

  /** What is later depends on the times and names alone. */
  lemma LaterByTime(shelf: Shelf, name: Bytes, modTime: int, a: Archive, b: Archive, n: Bytes)
    requires n in shelf && name !in shelf
    ensures var z := shelf[name := Backup(modTime, a)];
            LaterThan(shelf[name := Backup(modTime, b)], n)
            == set m | m in z && (z[n].modTime < z[m].modTime || (z[n].modTime == z[m].modTime && LexLess(n, m)))
  {
  }

  // ------------------------------------------------------------------
  // Two ways to lose backups
  // ------------------------------------------------------------------

  /**
   * A failing test for the old backups directory loses it, whatever it held, and the restore still reports success:
   * nothing of the backups is left, neither in the store nor set aside.
   */
  method FailedStatLosesBackups(s: Store, archive: Archive, name: Bytes, modTime: int, l: Limits) returns (r: Result)
    requires s.live.Some? && s.live.value.backups.Some? && s.temp == None && s.aside == None
    requires l.Representable() && name !in ShelfOf(s.live) && Storable(FilesOf(s.live)) && AllReadable(ShelfOf(s.live))
    requires Readable(archive) && Restorable(Some(archive), l)
    modifies s
    ensures r == Restored && s.live == Some(Dir(Contents(archive.entries), None))
    ensures s.temp == None && s.aside == None
  {
    hide Contents, Readable, Fits, Retained, Storable, AllReadable, LaterThan, SafetyCopy, Accepted, SafePaths;
    var shelf := ShelfOf(s.live);
    var f := NO_FAULTS.(statBackups := true, removals := |shelf| + 1);
    ghost var copy, restored;
    r, copy, restored := s.Restore(Elsewhere(Some(archive)), name, modTime, l, f);
    OneMore(shelf, name, Backup(modTime, copy));
    NothingUnder(Contents(archive.entries));
  }

  lemma OneMore(shelf: Shelf, name: Bytes, b: Backup)
    ensures |shelf[name := b]| <= |shelf| + 1
  {
    assert shelf[name := b].Keys == shelf.Keys + {name};
  }

  // ------------------------------------------------------------------
  // Two restores in one second
  // ------------------------------------------------------------------

  /** The safety copy of a store that is not there, the only backup then. */
  function OnlyNew(name: Bytes, modTime: int): Shelf {
    map[name := Backup(modTime, Good([]))]
  }

  /**
   * Files that are whole in the set-aside directory only are still whole after a restore of the same second: it was
   * cancelled, had no safety backup or no archive that passes the checks, or it brings back these very files over what
   * is left in `temp`, or clearing the set-aside directory left them, or it fails and there were none.
   */
  predicate Survive(from: Source, only: Shelf, l: Limits, f: Faults, temp: Option<Files>, files: Files) {
    var r, choice := Answer(from, only, l, f, f.asideStays), Chosen(from, only);
    || f.cancelled || !Undisturbed(f, only) || !Openable(choice, l)
    || (r != Restored && files == map[])
    || (r in {Failed(NotExtracted), Failed(NotSetAside)} && Holds(f.asideStays, files))
    || (r == Restored && Holds(f.asideLeft, files))
    || (r in {Restored, Failed(BackupsNotKept)}
        && Extracted(temp, f, choice.value.entries) == files)
  }

  /** What each answer leaves of a store that is not there, and of the directory set aside. */
  predicate Leaves(r: Result, f: Faults, content: Files, files: Files, live: Option<Dir>, aside: Option<Dir>) {
    match r
    case Restored => Holds(live, content) && aside == f.asideLeft
    case Failed(why) =>
      match why
      case BackupsNotKept => Holds(live, content) && Holds(aside, map[])
      case NotSwapped(true) => Holds(live, map[]) && aside == None
      case NotSwapped(false) => live == None && Holds(aside, map[])
      case NotExtracted => Holds(live, map[]) && aside == f.asideStays
      case NotSetAside => Holds(live, map[]) && aside == f.asideStays
      case _ => Holds(aside, files)
  }

  lemma SurviveExactly(from: Source, only: Shelf, l: Limits, f: Faults, temp: Option<Files>, content: Files,
                       files: Files, live: Option<Dir>, aside: Option<Dir>)
    requires var r := Answer(from, only, l, f, f.asideStays);
             && Leaves(r, f, content, files, live, aside) && !PrunedAway(from, only)
             && (r == Restored || r == Failed(BackupsNotKept) ==>
                   content == Extracted(temp, f, Chosen(from, only).value.entries))
    ensures Holds(live, files) || Holds(aside, files) <==> Survive(from, only, l, f, temp, files)
  {
    RefusedEarlyExactly(from, only, l, f, f.asideStays);
    hide Answer, PrunedAway, Openable, Undisturbed, Extracted;
  }

  /** Restoring over a store that is not there. */
  method RestoreOverNothing(s: Store, from: Source, name: Bytes, modTime: int, l: Limits, f: Faults)
    returns (r: Result, ghost content: Files)
    requires s.live == None && s.aside.Some? && l.Representable()
    requires from.Elsewhere? && from.archive.Some? ==> Readable(from.archive.value)
    modifies s
    ensures var only := OnlyNew(name, modTime);
            && r == Answer(from, only, l, f, f.asideStays) && !PrunedAway(from, only)
            && (r == Restored || r == Failed(BackupsNotKept) ==>
                  content == Extracted(old(s.temp), f, Chosen(from, only).value.entries))
    ensures Leaves(r, f, content, old(s.aside).value.files, s.live, s.aside)
  {
    hide Retained, LaterThan, Contents, Accepted, SafePaths, Storable, Undisturbed, PrunedAway, Answer, Openable;
    hide Survive, Extracted;
    NothingLive();
    ghost var copy, restored;
    r, copy, restored := s.Restore(from, name, modTime, l, f);
    OnlyOne(from, name, modTime, copy, l, f);
    hide OnlyNew, Chosen, SafetyCopy, Readable, AllReadable, ShelfOf;
    content := if r == Restored || r == Failed(BackupsNotKept) then s.live.value.files else map[];
    assert r.Failed? && r.why.NotSwapped? ==> r == Failed(NotSwapped(r.why.rolledBack));
  }

  /**
   * After a restore that could neither swap nor roll back, the only whole copy of the files is set aside, and another
   * restore in the same second clears it.
   */
  method RestoreOverAside(s: Store, from: Source, name: Bytes, modTime: int, l: Limits, f: Faults) returns (r: Result)
    requires s.live == None && s.aside.Some? && l.Representable()
    requires from.Elsewhere? && from.archive.Some? ==> Readable(from.archive.value)
    modifies s
    ensures r == Answer(from, OnlyNew(name, modTime), l, f, f.asideStays)
    ensures s.Whole(old(s.aside).value.files)
       <==> Survive(from, OnlyNew(name, modTime), l, f, old(s.temp), old(s.aside).value.files)
  {
    hide OnlyNew, PrunedAway, Answer, Leaves, Survive, Chosen, Extracted, Holds, Readable;
    ghost var files, temp := s.aside.value.files, s.temp;
    ghost var content;
    r, content := RestoreOverNothing(s, from, name, modTime, l, f);
    SurviveExactly(from, OnlyNew(name, modTime), l, f, temp, content, files, s.live, s.aside);
  }

  /** The whole story from the first restore on. */
  method RestoreTwice(s: Store, first: Source, second: Source, name: Bytes, name': Bytes, modTime: int, l: Limits,
                      f: Faults, f': Faults)
    returns (r: Result, r': Result, ghost copy: Archive)
    requires l.Representable() && name !in ShelfOf(s.live) && Storable(FilesOf(s.live)) && AllReadable(ShelfOf(s.live))
    requires first.Elsewhere? && first.archive.Some? ==> Readable(first.archive.value)
    requires second.Elsewhere? && second.archive.Some? ==> Readable(second.archive.value)
    modifies s
    ensures var shelf, files := ShelfOf(old(s.live))[name := Backup(modTime, copy)], FilesOf(old(s.live));
            && r == Answer(first, shelf, l, f, Leftover(old(s.aside), f.asideStays))
            && (r == Failed(NotSwapped(false)) ==>
                  var extracted := Extracted(old(s.temp), f, Chosen(first, shelf).value.entries);
                  && r' == Answer(second, OnlyNew(name', modTime), l, f', f'.asideStays)
                  && (s.Whole(files) <==> Survive(second, OnlyNew(name', modTime), l, f', Some(extracted), files)))
  {
    hide Retained, LaterThan, Accepted, SafePaths, Storable, Undisturbed, PrunedAway, Answer, Openable, Survive;
    hide Extracted, Chosen, Readable, AllReadable, SafetyCopy;
    ghost var restored;
    r, copy, restored := s.Restore(first, name, modTime, l, f);
    r' := r;
    if r == Failed(NotSwapped(false)) {
      r' := RestoreOverAside(s, second, name', modTime, l, f');
    }
  }

  /**
   * This happens: from any store with files and any archive that would be restored, when the swap and the roll-back
   * fail, restoring an archive of other files in the same second reports success, and the files are gone.
   */
  method SecondRestoreLosesAll(s: Store, first: Archive, second: Archive, name: Bytes, name': Bytes, modTime: int,
                               l: Limits)
    returns (r: Result, r': Result)
    requires l.Representable() && name !in ShelfOf(s.live) && Storable(FilesOf(s.live)) && AllReadable(ShelfOf(s.live))
    requires s.live.Some? && FilesOf(s.live) != map[]
    requires Readable(first) && Restorable(Some(first), l) && Readable(second) && Restorable(Some(second), l)
    requires Contents(second.entries) != FilesOf(s.live)
    modifies s
    ensures r == Failed(NotSwapped(false)) && r' == Restored && !s.Whole(FilesOf(old(s.live)))
  {
    hide Retained, LaterThan, Contents, Accepted, SafePaths, Storable, Readable, AllReadable, Fits;
    var shelf := ShelfOf(s.live);
    var f := NO_FAULTS.(swapIn := true, rollBack := true, removals := |shelf| + 1);
    ghost var copy;
    r, r', copy := RestoreTwice(s, Elsewhere(Some(first)), Elsewhere(Some(second)), name, name', modTime, l, f,
                                NO_FAULTS);
    OneMore(shelf, name, Backup(modTime, copy));
    OneMore(map[], name', Backup(modTime, Good([])));
    assert map[][name' := Backup(modTime, Good([]))] == OnlyNew(name', modTime);
  }

  /** The safety copy decides nothing that it is not itself chosen for. */
  lemma CopyIrrelevant(from: Source, shelf: Shelf, name: Bytes, modTime: int, a: Archive, b: Archive, l: Limits,
                       f: Faults, aside: Option<Dir>)
    requires from != Own(name)
    ensures Answer(from, shelf[name := Backup(modTime, a)], l, f, aside)
         == Answer(from, shelf[name := Backup(modTime, b)], l, f, aside)
  {
    var z, z' := shelf[name := Backup(modTime, a)], shelf[name := Backup(modTime, b)];
    assert z.Keys == z'.Keys;
    if from.Own? && from.name in z {
      assert LaterThan(z, from.name) == LaterThan(z', from.name);
    }
    assert |z| == |z'|;
  }

  lemma OnlyOne(from: Source, name: Bytes, modTime: int, copy: Archive, l: Limits, f: Faults)
    requires var r := Answer(from, map[name := Backup(modTime, copy)], l, f, f.asideStays);
             r in {Failed(Cancelled), Failed(NoSafetyBackup)} || SafetyCopy(copy, map[])
    ensures var z := map[name := Backup(modTime, copy)];
            && Answer(from, z, l, f, f.asideStays) == Answer(from, OnlyNew(name, modTime), l, f, f.asideStays)
            && !PrunedAway(from, OnlyNew(name, modTime)) && (SafetyCopy(copy, map[]) ==> z == OnlyNew(name, modTime))
  {
    var z, z' := map[name := Backup(modTime, copy)], OnlyNew(name, modTime);
    assert z.Keys == z'.Keys == {name} && |z| == |z'|;
    assert LaterThan(z, name) == {} == LaterThan(z', name) by {
      OlderIsTotalOrder(z, name, name, name);
      OlderIsTotalOrder(z', name, name, name);
    }
  }

  lemma NothingUnder(files: Files)
    ensures map[] + files == files
  {
  }

  lemma NothingLive()
    ensures FilesOf(None) == map[] && ShelfOf(None) == map[] && Storable(map[]) && AllReadable(map[])
  {
  }

  // ------------------------------------------------------------------
  // Restoring the oldest backup
  // ------------------------------------------------------------------

  predicate IsOldest(shelf: Shelf, n: Bytes) {
    n in shelf && forall m | m in shelf && m != n :: Older(shelf, n, m)
  }

  /**
   * The safety backup comes first and prunes: choosing the oldest of ten backups or more deletes it before it is
   * opened, and nothing is restored.
   */
  method RestoringTheOldestLosesIt(s: Store, oldest: Bytes, name: Bytes, modTime: int, l: Limits)
    returns (r: Result, ghost copy: Archive)
    requires l.Representable() && name !in ShelfOf(s.live) && Storable(FilesOf(s.live)) && AllReadable(ShelfOf(s.live))
    requires IsOldest(ShelfOf(s.live), oldest) && ShelfOf(s.live)[oldest].modTime < modTime
    requires |ShelfOf(s.live)| >= DEFAULT_RETENTION
    modifies s
    ensures r == Failed(NoArchive) && s.temp == old(s.temp) && s.aside == old(s.aside)
    ensures s.live.Some? && s.live.value.files == old(s.live).value.files
    ensures ShelfOf(s.live) == Retained(ShelfOf(old(s.live))[name := Backup(modTime, copy)], DEFAULT_RETENTION)
    ensures oldest in ShelfOf(old(s.live)) && oldest !in ShelfOf(s.live)
  {
    ghost var restored;
    var shelf := ShelfOf(s.live);
    assert oldest in shelf && s.live.Some?;
    hide Retained, IsOldest, LaterThan, Storable, AllReadable, SafetyCopy, Accepted, SafePaths, Contents, Fits;
    var f := NO_FAULTS.(removals := |shelf| + 1);
    r, copy, restored := s.Restore(Own(oldest), name, modTime, l, f);
    OneMore(shelf, name, Backup(modTime, copy));
    AllAreLater(shelf, oldest, name, Backup(modTime, copy));
  }

  lemma AllAreLater(shelf: Shelf, oldest: Bytes, name: Bytes, b: Backup)
    requires IsOldest(shelf, oldest) && name !in shelf && shelf[oldest].modTime < b.modTime
    ensures |LaterThan(shelf[name := b], oldest)| == |shelf|
  {
    var z := shelf[name := b];
    forall n
      ensures n in LaterThan(z, oldest) <==> n in z.Keys - {oldest}
    {
      if n in z {
        OlderIsTotalOrder(z, oldest, n, oldest);
      }
    }
    assert LaterThan(z, oldest) == z.Keys - {oldest} && z.Keys == shelf.Keys + {name};
  }
}
