/** `FileRotationDailyLogger`: one target per calendar day, in the log folder
    or, in subfolder mode, in a directory named after the day. A check
    rotates unless the anchor `currentDate` is today's start of day (debug
    mode rotates on every check): it removes the oldest archives beyond
    `maxArchives` and opens the day's target. */
module DailyLogger {
  import opened Wrappers
  import opened Paths
  import opened Errors
  import opened FileSystem
  import opened Config
  import opened Archives
  import opened Clock
  import opened Loggable
  import opened FolderLogging

  /** The `dateFormat` of the day's subfolder. */
  const FolderFormat: string := "y-MM-dd"
  /** The `dateFormat` in the name of the day's target. */
  const FileFormat: string := "yMMdd"

  // ------------------------------------------------------------ path naming

  /** The directory of the target of `day`: the folder, or its subfolder
      named `y-MM-dd`. */
  function DayDirectory(folder: Path, inSubfolder: bool, cal: Calendar, day: int): Path {
    if inSubfolder then Child(folder, cal.format(FolderFormat, day)) else folder
  }

  /** The target of `day`: `<directory>/swift_<yMMdd>.log`. */
  function DayTarget(folder: Path, inSubfolder: bool, cal: Calendar, day: int): (p: Path)
    ensures Parent(p) == DayDirectory(folder, inSubfolder, cal, day)
    ensures IsWithin(p, folder) && |p| == |folder| + (if inSubfolder then 2 else 1)
  {
    Child(DayDirectory(folder, inSubfolder, cal, day), TargetName(cal.format(FileFormat, day)))
  }

  /** `yMMdd` renders the starts of two different days differently. */
  ghost predicate TellsDaysApart(cal: Calendar) {
    forall a, b :: cal.startOfDay(a) == a && cal.startOfDay(b) == b && cal.format(FileFormat, a) == cal.format(FileFormat, b) ==> a == b
  }

  /** When the file pattern tells days apart, two days have two targets. */
  lemma DayTargetsDistinct(folder: Path, inSubfolder: bool, cal: Calendar, a: int, b: int)
    requires TellsDaysApart(cal) && cal.startOfDay(a) == a && cal.startOfDay(b) == b && a != b
    ensures DayTarget(folder, inSubfolder, cal, a) != DayTarget(folder, inSubfolder, cal, b)
  {
    var pa, pb := DayTarget(folder, inSubfolder, cal, a), DayTarget(folder, inSubfolder, cal, b);
    if pa == pb {
      assert pa[|pa| - 1] == TargetName(cal.format(FileFormat, a));
      assert pb[|pb| - 1] == TargetName(cal.format(FileFormat, b));
      TargetNameInjective(cal.format(FileFormat, a), cal.format(FileFormat, b));
    }
  }

  // --------------------------------------------------------------- opening

  /** `openDailyFile(inSubfolder)` at instant `now`: the anchor is set to
      today's start of day before anything can throw; the directory and the
      target are those of that day. */
  function OpenDaily(s: State, folder: Path, inSubfolder: bool, mode: nat, cal: Calendar, now: int): (r: Opening)
    ensures r.state.currentDate == Some(cal.startOfDay(now))
    ensures var dir := DayDirectory(folder, inSubfolder, cal, cal.startOfDay(now));
            !CanCreateDirectory(s.disk, dir) ==>
              r == Opening(s.(currentDate := Some(cal.startOfDay(now))), Some(CreatingDirectoryFailed(dir)))
    ensures var dir := DayDirectory(folder, inSubfolder, cal, cal.startOfDay(now));
            CanCreateDirectory(s.disk, dir) ==> r.state.fileURL == DayTarget(folder, inSubfolder, cal, cal.startOfDay(now))
    ensures r.error.None? ==> CanOpenForWriting(r.state.disk, r.state.fileURL)
  {
    var day := cal.startOfDay(now);
    var o := OpenIn(s.disk, DayDirectory(folder, inSubfolder, cal, day), TargetName(cal.format(FileFormat, day)), s.fileURL, mode, now);
    Opening(State(o.disk, Some(day), o.fileURL), o.error)
  }

  // ------------------------------------------------------------- catalogue

  /** The filter of plain mode: not the folder, and the folder once the last
      extension is deleted. */
  function IsFolderArchive(folder: Path): Filter {
    (p: Path, e: Entry) => p != folder && DeletingExtension(p) == folder
  }

  /** `ascArchivesURLs(folderURL)`: the subdirectories of the folder in
      subfolder mode, and otherwise the entries the plain filter keeps. */
  function DailyArchives(d: Disk, folder: Path, rotationType: RotationType): (r: seq<Path>)
    ensures rotationType == DailyInSubfolder ==> r == Subfolders(d, folder)
  {
    if rotationType == DailyInSubfolder then Subfolders(d, folder)
    else Catalogue(d, folder, IsFolderArchive(folder))
  }

  /** No entry of the folder passes the plain filter: deleting an extension
      keeps the number of components, so an entry of the folder never
      becomes the folder itself. */
  lemma PlainCatalogueEmpty(d: Disk, folder: Path, rotationType: RotationType)
    requires rotationType != DailyInSubfolder
    ensures DailyArchives(d, folder, rotationType) == []
  {
    var keep := IsFolderArchive(folder);
    if IsDirectory(d, folder) {
      CatalogueIsOldestFirst(d, folder, keep);
      forall p | p in d.entries && IsChildOf(p, folder) ensures DeletingExtension(p) != folder {
        ExtensionKeepsDirectory(p, "");
      }
      assert Kept(d, folder, keep) == {};
    }
  }

  /** A logger whose configuration comes from `RotationConfig.init` is in
      plain mode, whatever rotation type was asked for, so it never removes
      an archive. */
  lemma InitConfigNeverPrunes(d: Disk, folder: Path, asked: RotationType, suffix: SuffixExtension,
                              maxFileSize: UInt64, maxArchives: UInt8)
    ensures var config := Init(asked, suffix, maxFileSize, maxArchives);
            Pruned(d, DailyArchives(d, folder, config.rotationType), config.maxArchives) == Pruning(d, [])
  {
    PlainCatalogueEmpty(d, folder, Filesize);
  }

  // -------------------------------------------------------------- rotation

  /** The guard of `rotateFiles`: anchored, anchored today, and not in debug
      mode. */
  predicate Skipped(anchor: Option<int>, today: int, inDebug: bool) {
    anchor.Some? && anchor.value == today && !inDebug
  }

  /** `rotateFiles` at instant `now`: nothing when skipped; otherwise remove
      the excess archives, then `openDailyFile`, whose error is dropped. */
  function Rotate(s: State, folder: Path, config: RotationConfig, inDebug: bool, mode: nat, cal: Calendar, now: int): (r: Checked)
    ensures Skipped(s.currentDate, cal.startOfDay(now), inDebug) ==> r == Checked(s, [], None)
    ensures r.state.currentDate == Some(cal.startOfDay(now))
  {
    if Skipped(s.currentDate, cal.startOfDay(now), inDebug) then Checked(s, [], None)
    else
      var pruned := Pruned(s.disk, DailyArchives(s.disk, folder, config.rotationType), config.maxArchives);
      var o := OpenDaily(s.(disk := pruned.disk), folder, config.rotationType == DailyInSubfolder, mode, cal, now);
      Checked(o.state, pruned.removed, o.error)
  }

  /** A check that is not skipped removes the oldest archives beyond the
      bound, each by one delegate call, and then opens the target of today. */
  lemma RotationPrunesThenOpens(s: State, folder: Path, config: RotationConfig, inDebug: bool, mode: nat, cal: Calendar, now: int)
    requires !Skipped(s.currentDate, cal.startOfDay(now), inDebug)
    ensures var r := Rotate(s, folder, config, inDebug, mode, cal, now);
            var cat := DailyArchives(s.disk, folder, config.rotationType);
            var pruned := Pruned(s.disk, cat, config.maxArchives);
            var dir := DayDirectory(folder, config.rotationType == DailyInSubfolder, cal, cal.startOfDay(now));
            && r.removed == cat[..|r.removed|]
            && |r.removed| <= Excess(|cat|, config.maxArchives)
            && (CanCreateDirectory(pruned.disk, dir) ==>
                  r.state.fileURL == DayTarget(folder, config.rotationType == DailyInSubfolder, cal, cal.startOfDay(now)))
            && (!CanCreateDirectory(pruned.disk, dir) ==>
                  r.state.fileURL == s.fileURL && r.reopenError == Some(CreatingDirectoryFailed(dir)))
  {
    PruneShape(s.disk, DailyArchives(s.disk, folder, config.rotationType), config.maxArchives);
  }

  /** In subfolder mode, a check that is not skipped leaves the folder
      listing `min(count, maxArchives)` subdirectories, or one more when the
      directory of today did not survive the prune and the opening
      succeeded, so up to `maxArchives + 1` between two checks. */
  lemma RotationListsAtMostOneMore(s: State, folder: Path, config: RotationConfig, inDebug: bool, mode: nat,
                                   cal: Calendar, now: int)
    requires !Skipped(s.currentDate, cal.startOfDay(now), inDebug)
    requires config.rotationType == DailyInSubfolder && IsDirectory(s.disk, folder)
    requires var cat := Subfolders(s.disk, folder);
             forall j :: 0 <= j < Excess(|cat|, config.maxArchives) ==> cat[j] !in s.disk.locked
    ensures var cat := Subfolders(s.disk, folder);
            var r := Rotate(s, folder, config, inDebug, mode, cal, now);
            var pruned := Pruned(s.disk, cat, config.maxArchives);
            var dir := DayDirectory(folder, true, cal, cal.startOfDay(now));
            var m := if |cat| <= config.maxArchives then |cat| else config.maxArchives;
            var n := |Subfolders(r.state.disk, folder)|;
            && m <= n <= m + 1
            && (dir in Subfolders(pruned.disk, folder) ==> n == m)
            && (dir !in Subfolders(pruned.disk, folder) && r.reopenError.None? ==> n == m + 1)
  {
    var day := cal.startOfDay(now);
    PruneThenOpenCount(s.disk, folder, cal.format(FolderFormat, day), TargetName(cal.format(FileFormat, day)),
                       s.fileURL, mode, now, config.maxArchives);
  }

  /** After any check, a second check on the same day is skipped outside
      debug mode. */
  lemma SameDayCheckIsNoOp(s: State, folder: Path, config: RotationConfig, inDebug: bool, mode: nat, cal: Calendar,
                           now: int, later: int)
    requires !inDebug && cal.startOfDay(later) == cal.startOfDay(now)
    ensures var r := Rotate(s, folder, config, inDebug, mode, cal, now);
            Rotate(r.state, folder, config, inDebug, mode, cal, later) == Checked(r.state, [], None)
  {
  }

  // ------------------------------------------------------------------- log

  /** `log`: a check at `before`, the record's bytes appended to the target
      at `write`, a check at `after`. */
  function LogStep(s: State, folder: Path, config: RotationConfig, inDebug: bool, mode: nat, cal: Calendar,
                   bytes: nat, before: int, write: int, after: int): (r: Logged)
  {
    var first := Rotate(s, folder, config, inDebug, mode, cal, before);
    var written := first.state.(disk := Append(first.state.disk, first.state.fileURL, bytes, write));
    var second := Rotate(written, folder, config, inDebug, mode, cal, after);
    Logged(second.state, first.removed + second.removed)
  }

  /** A log call on the anchored day outside debug mode only appends. */
  lemma SameDayLogOnlyAppends(s: State, folder: Path, config: RotationConfig, inDebug: bool, mode: nat, cal: Calendar,
                              bytes: nat, before: int, write: int, after: int)
    requires !inDebug && s.currentDate == Some(cal.startOfDay(before)) && cal.startOfDay(after) == cal.startOfDay(before)
    ensures LogStep(s, folder, config, inDebug, mode, cal, bytes, before, write, after)
              == Logged(s.(disk := Append(s.disk, s.fileURL, bytes, write)), [])
  {
  }

  // ---------------------------------------------------------------- logger

  class FileRotationDailyLogger {
    /** The filesystem the logger writes to. */
    var disk: Disk
    /** The calls made on the delegate so far. */
    var events: seq<Path>
    var currentDate: Option<int>
    var fileURL: Path

    const folderURL: Path
    const filePermission: string
    const config: RotationConfig
    const inDebug: bool
    const hasDelegate: bool
    const cal: Calendar

    ghost predicate Valid()
      reads this
    {
      ValidPermission(filePermission)
    }

    /** The fields the rotation functions act on. */
    function Fields(): State
      reads this
    {
      State(disk, currentDate, fileURL)
    }

    /** The stored properties before `openDailyFile` runs: the target is the
        folder and there is no anchor. */
    constructor Init(disk: Disk, folderURL: Path, filePermission: string, config: RotationConfig,
                     inDebug: bool, hasDelegate: bool, cal: Calendar)
      requires ValidPermission(filePermission)
      ensures Valid()
      ensures this.disk == disk && this.events == [] && currentDate == None && fileURL == folderURL
      ensures this.folderURL == folderURL && this.filePermission == filePermission && this.config == config
      ensures this.inDebug == inDebug && this.hasDelegate == hasDelegate && this.cal == cal
    {
      this.disk := disk;
      this.events := [];
      this.currentDate := None;
      this.fileURL := folderURL;
      this.folderURL := folderURL;
      this.filePermission := filePermission;
      this.config := config;
      this.inDebug := inDebug;
      this.hasDelegate := hasDelegate;
      this.cal := cal;
    }

    /** `init`: validates the folder and its permission, runs
        `openDailyFile` at `now` and anchors again at `later`; any failure is
        thrown to the caller. */
    static method Create(d: Disk, folderURL: Path, hasDirectoryPath: bool, filePermission: string, config: RotationConfig,
                         inDebug: bool, hasDelegate: bool, cal: Calendar, now: int, later: int)
      returns (r: Result<FileRotationDailyLogger, FileError>, after: Disk)
      ensures var v := ValidateFolder(folderURL, hasDirectoryPath, filePermission);
              v.Some? ==> r == Failure(v.value) && after == d
      ensures ValidateFolder(folderURL, hasDirectoryPath, filePermission).None? ==>
                var o := OpenDaily(State(d, None, folderURL), folderURL, config.rotationType == DailyInSubfolder,
                                   Mode(filePermission), cal, now);
                && after == o.state.disk
                && (r.Failure? <==> o.error.Some?)
                && (r.Failure? ==> r.error == o.error.value)
                && (r.Success? ==> r.value.fileURL == o.state.fileURL)
      ensures r.Success? ==> && fresh(r.value) && r.value.Valid()
                             && r.value.disk == after && r.value.events == []
                             && r.value.currentDate == Some(cal.startOfDay(later))
                             && r.value.folderURL == folderURL && r.value.filePermission == filePermission && r.value.config == config
                             && r.value.inDebug == inDebug && r.value.hasDelegate == hasDelegate && r.value.cal == cal
    {
      var v := ValidateFolder(folderURL, hasDirectoryPath, filePermission);
      if v.Some? {
        r, after := Failure(v.value), d;
        return;
      }
      var logger := new FileRotationDailyLogger.Init(d, folderURL, filePermission, config, inDebug, hasDelegate, cal);
      var err := logger.OpenDailyFile(config.rotationType == DailyInSubfolder, now);
      after := logger.disk;
      if err.Some? {
        r := Failure(err.value);
        return;
      }
      logger.currentDate := Some(cal.startOfDay(later));
      r := Success(logger);
    }

    /** `openDailyFile(inSubfolder)` at instant `now`. */
    method OpenDailyFile(inSubfolder: bool, now: int) returns (error: Option<FileError>)
      requires Valid()
      modifies this
      ensures var o := OpenDaily(old(Fields()), folderURL, inSubfolder, Mode(filePermission), cal, now);
              Fields() == o.state && error == o.error
      ensures events == old(events)
    {
      var day := cal.startOfDay(now);
      currentDate := Some(day);
      var dir := DayDirectory(folderURL, inSubfolder, cal, day);
      var made := CreateDirectory(disk, dir, now);
      if made.None? {
        return Some(CreatingDirectoryFailed(dir));
      }
      disk := made.value;
      fileURL := Child(dir, TargetName(cal.format(FileFormat, day)));
      var o := OpenTarget(disk, fileURL, Mode(filePermission), now);
      disk, error := o.disk, o.error;
    }

    /** `removeArchives(folderURL, maxArchives:)`. */
    method RemoveArchives()
      modifies this
      ensures var p := Pruned(old(disk), DailyArchives(old(disk), folderURL, config.rotationType), config.maxArchives);
              disk == p.disk && events == old(events) + Notify(hasDelegate, p.removed)
      ensures currentDate == old(currentDate) && fileURL == old(fileURL)
    {
      var pruned := RemoveOldest(disk, DailyArchives(disk, folderURL, config.rotationType), config.maxArchives);
      disk := pruned.disk;
      events := events + Notify(hasDelegate, pruned.removed);
    }

    /** `rotateFiles` at instant `now`. */
    method RotateFiles(now: int)
      requires Valid()
      modifies this
      ensures var c := Rotate(old(Fields()), folderURL, config, inDebug, Mode(filePermission), cal, now);
              Fields() == c.state && events == old(events) + Notify(hasDelegate, c.removed)
    {
      if Skipped(currentDate, cal.startOfDay(now), inDebug) {
        return;
      }
      RemoveArchives();
      var _ := OpenDailyFile(config.rotationType == DailyInSubfolder, now);
    }

    /** `log`: a check, the append of the rendered record, a second check. */
    method Log(bytes: nat, before: int, write: int, after: int)
      requires Valid()
      modifies this
      ensures var r := LogStep(old(Fields()), folderURL, config, inDebug, Mode(filePermission), cal, bytes, before, write, after);
              Fields() == r.state && events == old(events) + Notify(hasDelegate, r.removed)
    {
      ghost var s0, e0 := Fields(), events;
      ghost var first := Rotate(s0, folderURL, config, inDebug, Mode(filePermission), cal, before);
      RotateFiles(before);
      disk := Append(disk, fileURL, bytes, write);
      ghost var second := Rotate(Fields(), folderURL, config, inDebug, Mode(filePermission), cal, after);
      RotateFiles(after);
      NotifyConcat(hasDelegate, e0, first.removed, second.removed);
    }
  }
}
