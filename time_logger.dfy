/** `FileRotationTimeLogger`: each target lives in a subdirectory of the log
    folder named by `folderDateFormat`, and is named after the instant it
    was opened. A check returns early when the interval since the anchor
    `currentDate` has expired; in every other case it removes the oldest
    subdirectories beyond `maxArchives` and opens a new target, anchored at
    the instant of the check. */
module TimeLogger {
  import opened Wrappers
  import opened Paths
  import opened Errors
  import opened FileSystem
  import opened Config
  import opened Archives
  import opened Clock
  import opened Loggable
  import opened FolderLogging

  /** The default `folderDateFormat`. */
  const DefaultFolderDateFormat: string := "yyyy-MM-dd"
  /** The default `RotationTime`, `60 * 24 * 24` seconds. */
  const DefaultRotationTime: int := 60 * 24 * 24
  /** The `dateFormat` in the name of a target. */
  const FileFormat: string := "yyyyMMdd_HHmmss"

  lemma Defaults()
    ensures DefaultRotationTime == 34560 && DefaultFolderDateFormat == "yyyy-MM-dd"
  {
  }

  // ------------------------------------------------------------ path naming

  /** The directory of a target opened at `now`. */
  function TimeDirectory(folder: Path, folderDateFormat: string, cal: Calendar, now: int): Path {
    Child(folder, cal.format(folderDateFormat, now))
  }

  /** The target opened at `now`: `<folder>/<folderDateFormat>/swift_<yyyyMMdd_HHmmss>.log`. */
  function TimeTarget(folder: Path, folderDateFormat: string, cal: Calendar, now: int): (p: Path)
    ensures Parent(p) == TimeDirectory(folder, folderDateFormat, cal, now) && IsChildOf(Parent(p), folder)
    ensures IsWithin(p, folder) && |p| == |folder| + 2
  {
    Child(TimeDirectory(folder, folderDateFormat, cal, now), TargetName(cal.format(FileFormat, now)))
  }

  /** When the file pattern tells instants apart, targets opened at two
      instants differ. */
  lemma TimeTargetsDistinct(folder: Path, folderDateFormat: string, cal: Calendar, a: int, b: int)
    requires FormatInjective(cal, FileFormat) && a != b
    ensures TimeTarget(folder, folderDateFormat, cal, a) != TimeTarget(folder, folderDateFormat, cal, b)
  {
    var pa, pb := TimeTarget(folder, folderDateFormat, cal, a), TimeTarget(folder, folderDateFormat, cal, b);
    if pa == pb {
      assert pa[|pa| - 1] == TargetName(cal.format(FileFormat, a));
      assert pb[|pb| - 1] == TargetName(cal.format(FileFormat, b));
      TargetNameInjective(cal.format(FileFormat, a), cal.format(FileFormat, b));
    }
  }

  // --------------------------------------------------------------- opening

  /** `openDailyFile()` at instant `now`: the anchor is set to `now` before
      anything can throw; the directory and the target are those of `now`. */
  function OpenTimed(s: State, folder: Path, folderDateFormat: string, mode: nat, cal: Calendar, now: int): (r: Opening)
    ensures r.state.currentDate == Some(now)
    ensures var dir := TimeDirectory(folder, folderDateFormat, cal, now);
            !CanCreateDirectory(s.disk, dir) ==>
              r == Opening(s.(currentDate := Some(now)), Some(CreatingDirectoryFailed(dir)))
    ensures CanCreateDirectory(s.disk, TimeDirectory(folder, folderDateFormat, cal, now)) ==>
              r.state.fileURL == TimeTarget(folder, folderDateFormat, cal, now)
    ensures r.error.None? ==> CanOpenForWriting(r.state.disk, r.state.fileURL)
  {
    var o := OpenIn(s.disk, TimeDirectory(folder, folderDateFormat, cal, now), TargetName(cal.format(FileFormat, now)),
                    s.fileURL, mode, now);
    Opening(State(o.disk, Some(now), o.fileURL), o.error)
  }

  /** A successfully opened target's directory is among the subdirectories
      the next check catalogues, so it counts against `maxArchives`. */
  lemma OpenedDirectoryIsArchive(s: State, folder: Path, folderDateFormat: string, mode: nat, cal: Calendar, now: int)
    requires OpenTimed(s, folder, folderDateFormat, mode, cal, now).error.None?
    ensures var r := OpenTimed(s, folder, folderDateFormat, mode, cal, now);
            Parent(r.state.fileURL) in Subfolders(r.state.disk, folder)
  {
    OpenedFolderIsListed(s.disk, folder, cal.format(folderDateFormat, now), TargetName(cal.format(FileFormat, now)),
                         s.fileURL, mode, now);
  }

  // -------------------------------------------------------------- rotation

  /** The early return of `rotateFiles`: anchored, and more than
      `rotationTime` seconds since the anchor. */
  predicate Expired(anchor: Option<int>, now: int, rotationTime: int) {
    anchor.Some? && now - anchor.value > rotationTime
  }

  /** `rotateFiles` at instant `now`: nothing once expired; otherwise remove
      the excess subdirectories, then `openDailyFile`, whose error is
      dropped. */
  function Rotate(s: State, folder: Path, folderDateFormat: string, rotationTime: int, config: RotationConfig,
                  mode: nat, cal: Calendar, now: int): (r: Checked)
    ensures Expired(s.currentDate, now, rotationTime) ==> r == Checked(s, [], None)
    ensures !Expired(s.currentDate, now, rotationTime) ==> r.state.currentDate == Some(now)
  {
    if Expired(s.currentDate, now, rotationTime) then Checked(s, [], None)
    else
      var pruned := Pruned(s.disk, Subfolders(s.disk, folder), config.maxArchives);
      var o := OpenTimed(s.(disk := pruned.disk), folder, folderDateFormat, mode, cal, now);
      Checked(o.state, pruned.removed, o.error)
  }

  /** A check within the interval removes the oldest subdirectories beyond
      the bound, each by one delegate call, and then opens the target of
      `now`. */
  lemma RotationPrunesThenOpens(s: State, folder: Path, folderDateFormat: string, rotationTime: int, config: RotationConfig,
                                mode: nat, cal: Calendar, now: int)
    requires !Expired(s.currentDate, now, rotationTime)
    ensures var r := Rotate(s, folder, folderDateFormat, rotationTime, config, mode, cal, now);
            var cat := Subfolders(s.disk, folder);
            var pruned := Pruned(s.disk, cat, config.maxArchives);
            var dir := TimeDirectory(folder, folderDateFormat, cal, now);
            && r.removed == cat[..|r.removed|]
            && |r.removed| <= Excess(|cat|, config.maxArchives)
            && (CanCreateDirectory(pruned.disk, dir) ==> r.state.fileURL == TimeTarget(folder, folderDateFormat, cal, now))
            && (!CanCreateDirectory(pruned.disk, dir) ==>
                  r.state.fileURL == s.fileURL && r.reopenError == Some(CreatingDirectoryFailed(dir)))
  {
    PruneShape(s.disk, Subfolders(s.disk, folder), config.maxArchives);
  }

  /** When every excess subdirectory can be removed, the prune inside a
      check within the interval leaves exactly `min(count, maxArchives)` of
      the old ones; the opening that follows may add one more
      (`RotationListsAtMostOneMore`). */
  lemma RotationKeepsNewest(s: State, folder: Path, folderDateFormat: string, rotationTime: int, config: RotationConfig,
                            mode: nat, cal: Calendar, now: int)
    requires !Expired(s.currentDate, now, rotationTime)
    requires var cat := Subfolders(s.disk, folder);
             forall j :: 0 <= j < Excess(|cat|, config.maxArchives) ==> cat[j] !in s.disk.locked
    ensures var cat := Subfolders(s.disk, folder);
            var r := Rotate(s, folder, folderDateFormat, rotationTime, config, mode, cal, now);
            var pruned := Pruned(s.disk, cat, config.maxArchives);
            && r.removed == cat[..Excess(|cat|, config.maxArchives)]
            && |Subfolders(pruned.disk, folder)| == if |cat| <= config.maxArchives then |cat| else config.maxArchives
  {
    var cat := Subfolders(s.disk, folder);
    assert cat == Catalogue(s.disk, folder, IsSubfolder());
    PruneBoundsArchives(s.disk, folder, IsSubfolder(), config.maxArchives);
    assert Subfolders(Pruned(s.disk, cat, config.maxArchives).disk, folder)
        == Catalogue(Pruned(s.disk, cat, config.maxArchives).disk, folder, IsSubfolder());
  }

  /** After the prune, a check within the interval opens the target of
      `now`, whose directory is a new subdirectory unless it survived the
      prune: the folder then lists `min(count, maxArchives)` subdirectories,
      or one more, so up to `maxArchives + 1` between two checks. */
  lemma RotationListsAtMostOneMore(s: State, folder: Path, folderDateFormat: string, rotationTime: int,
                                   config: RotationConfig, mode: nat, cal: Calendar, now: int)
    requires !Expired(s.currentDate, now, rotationTime) && IsDirectory(s.disk, folder)
    requires var cat := Subfolders(s.disk, folder);
             forall j :: 0 <= j < Excess(|cat|, config.maxArchives) ==> cat[j] !in s.disk.locked
    ensures var cat := Subfolders(s.disk, folder);
            var r := Rotate(s, folder, folderDateFormat, rotationTime, config, mode, cal, now);
            var pruned := Pruned(s.disk, cat, config.maxArchives);
            var dir := TimeDirectory(folder, folderDateFormat, cal, now);
            var m := if |cat| <= config.maxArchives then |cat| else config.maxArchives;
            var n := |Subfolders(r.state.disk, folder)|;
            && m <= n <= m + 1
            && (dir in Subfolders(pruned.disk, folder) ==> n == m)
            && (dir !in Subfolders(pruned.disk, folder) && r.reopenError.None? ==> n == m + 1)
  {
    PruneThenOpenCount(s.disk, folder, cal.format(folderDateFormat, now), TargetName(cal.format(FileFormat, now)),
                       s.fileURL, mode, now, config.maxArchives);
  }

  /** Once the interval has expired, it stays expired at every later
      instant; since the anchor then never moves, the logger never rotates
      again. */
  lemma ExpiryIsPermanent(s: State, folder: Path, folderDateFormat: string, rotationTime: int, config: RotationConfig,
                          mode: nat, cal: Calendar, now: int, later: int)
    requires Expired(s.currentDate, now, rotationTime) && now <= later
    ensures Rotate(s, folder, folderDateFormat, rotationTime, config, mode, cal, later) == Checked(s, [], None)
  {
    assert Expired(s.currentDate, later, rotationTime);
  }

  /** Within the interval the anchor follows the checks, so the interval
      expires only when two consecutive checks are more than `rotationTime`
      apart. */
  lemma CheckWithinIntervalReanchors(s: State, folder: Path, folderDateFormat: string, rotationTime: int,
                                     config: RotationConfig, mode: nat, cal: Calendar, now: int, later: int)
    requires !Expired(s.currentDate, now, rotationTime)
    ensures var r := Rotate(s, folder, folderDateFormat, rotationTime, config, mode, cal, now);
            Expired(r.state.currentDate, later, rotationTime) <==> later - now > rotationTime
  {
  }

  // ------------------------------------------------------------------- log

  /** `log`: a check at `before`, the record's bytes appended to the target
      at `write`, a check at `after`. */
  function LogStep(s: State, folder: Path, folderDateFormat: string, rotationTime: int, config: RotationConfig,
                   mode: nat, cal: Calendar, bytes: nat, before: int, write: int, after: int): (r: Logged)
  {
    var first := Rotate(s, folder, folderDateFormat, rotationTime, config, mode, cal, before);
    var written := first.state.(disk := Append(first.state.disk, first.state.fileURL, bytes, write));
    var second := Rotate(written, folder, folderDateFormat, rotationTime, config, mode, cal, after);
    Logged(second.state, first.removed + second.removed)
  }

  /** After expiry a log call only appends to the old target. */
  lemma ExpiredLogOnlyAppends(s: State, folder: Path, folderDateFormat: string, rotationTime: int, config: RotationConfig,
                              mode: nat, cal: Calendar, bytes: nat, before: int, write: int, after: int)
    requires Expired(s.currentDate, before, rotationTime) && before <= after
    ensures LogStep(s, folder, folderDateFormat, rotationTime, config, mode, cal, bytes, before, write, after)
              == Logged(s.(disk := Append(s.disk, s.fileURL, bytes, write)), [])
  {
    ExpiryIsPermanent(s, folder, folderDateFormat, rotationTime, config, mode, cal, before, after);
    ExpiryIsPermanent(s.(disk := Append(s.disk, s.fileURL, bytes, write)), folder, folderDateFormat, rotationTime,
                      config, mode, cal, before, after);
  }

  // ---------------------------------------------------------------- logger

  class FileRotationTimeLogger {
    /** The filesystem the logger writes to. */
    var disk: Disk
    /** The calls made on the delegate so far. */
    var events: seq<Path>
    var currentDate: Option<int>
    var fileURL: Path

    const folderURL: Path
    const folderDateFormat: string
    const filePermission: string
    /** Seconds; a `Double` in the source. */
    const rotationTime: int
    const config: RotationConfig
    const hasDelegate: bool
    const cal: Calendar

    ghost predicate Valid()
      reads this
    {
      ValidPermission(filePermission)
    }

    /** The fields the rotation functions act on. */
    function Fields(): State
      reads this
    {
      State(disk, currentDate, fileURL)
    }

    /** The stored properties before `openDailyFile` runs: the target is the
        folder and there is no anchor. */
    constructor Init(disk: Disk, folderURL: Path, folderDateFormat: string, filePermission: string, rotationTime: int,
                     config: RotationConfig, hasDelegate: bool, cal: Calendar)
      requires ValidPermission(filePermission)
      ensures Valid()
      ensures this.disk == disk && this.events == [] && currentDate == None && fileURL == folderURL
      ensures this.folderURL == folderURL && this.folderDateFormat == folderDateFormat
      ensures this.filePermission == filePermission && this.rotationTime == rotationTime
      ensures this.config == config && this.hasDelegate == hasDelegate && this.cal == cal
    {
      this.disk := disk;
      this.events := [];
      this.currentDate := None;
      this.fileURL := folderURL;
      this.folderURL := folderURL;
      this.folderDateFormat := folderDateFormat;
      this.filePermission := filePermission;
      this.rotationTime := rotationTime;
      this.config := config;
      this.hasDelegate := hasDelegate;
      this.cal := cal;
    }

    /** `init`: validates the folder and its permission and runs
        `openDailyFile` at `now`; any failure is thrown to the caller. */
    static method Create(d: Disk, folderURL: Path, hasDirectoryPath: bool, filePermission: string, config: RotationConfig,
                         hasDelegate: bool, cal: Calendar, folderDateFormat: string, rotationTime: int, now: int)
      returns (r: Result<FileRotationTimeLogger, FileError>, after: Disk)
      ensures var v := ValidateFolder(folderURL, hasDirectoryPath, filePermission);
              v.Some? ==> r == Failure(v.value) && after == d
      ensures ValidateFolder(folderURL, hasDirectoryPath, filePermission).None? ==>
                var o := OpenTimed(State(d, None, folderURL), folderURL, folderDateFormat, Mode(filePermission), cal, now);
                && after == o.state.disk
                && (r.Failure? <==> o.error.Some?)
                && (r.Failure? ==> r.error == o.error.value)
                && (r.Success? ==> r.value.Fields() == o.state)
      ensures r.Success? ==> && fresh(r.value) && r.value.Valid() && r.value.events == []
                             && r.value.folderURL == folderURL && r.value.folderDateFormat == folderDateFormat
                             && r.value.rotationTime == rotationTime && r.value.filePermission == filePermission && r.value.config == config
                             && r.value.hasDelegate == hasDelegate && r.value.cal == cal
    {
      var v := ValidateFolder(folderURL, hasDirectoryPath, filePermission);
      if v.Some? {
        r, after := Failure(v.value), d;
        return;
      }
      var logger := new FileRotationTimeLogger.Init(d, folderURL, folderDateFormat, filePermission, rotationTime,
                                                    config, hasDelegate, cal);
      var err := logger.OpenDailyFile(now);
      after := logger.disk;
      if err.Some? {
        r := Failure(err.value);
        return;
      }
      r := Success(logger);
    }

    /** `openDailyFile()` at instant `now`. */
    method OpenDailyFile(now: int) returns (error: Option<FileError>)
      requires Valid()
      modifies this
      ensures var o := OpenTimed(old(Fields()), folderURL, folderDateFormat, Mode(filePermission), cal, now);
              Fields() == o.state && error == o.error
      ensures events == old(events)
    {
      currentDate := Some(now);
      var dir := TimeDirectory(folderURL, folderDateFormat, cal, now);
      var made := CreateDirectory(disk, dir, now);
      if made.None? {
        return Some(CreatingDirectoryFailed(dir));
      }
      disk := made.value;
      fileURL := Child(dir, TargetName(cal.format(FileFormat, now)));
      var o := OpenTarget(disk, fileURL, Mode(filePermission), now);
      disk, error := o.disk, o.error;
    }

    /** `removeArchives(folderURL, maxArchives:)`. */
    method RemoveArchives()
      modifies this
      ensures var p := Pruned(old(disk), Subfolders(old(disk), folderURL), config.maxArchives);
              disk == p.disk && events == old(events) + Notify(hasDelegate, p.removed)
      ensures currentDate == old(currentDate) && fileURL == old(fileURL)
    {
      var pruned := RemoveOldest(disk, Subfolders(disk, folderURL), config.maxArchives);
      disk := pruned.disk;
      events := events + Notify(hasDelegate, pruned.removed);
    }

    /** `rotateFiles` at instant `now`. */
    method RotateFiles(now: int)
      requires Valid()
      modifies this
      ensures var c := Rotate(old(Fields()), folderURL, folderDateFormat, rotationTime, config, Mode(filePermission), cal, now);
              Fields() == c.state && events == old(events) + Notify(hasDelegate, c.removed)
    {
      if currentDate.Some? && now - currentDate.value > rotationTime {
        return;
      }
      RemoveArchives();
      var _ := OpenDailyFile(now);
    }

    /** `log`: a check, the append of the rendered record, a second check. */
    method Log(bytes: nat, before: int, write: int, after: int)
      requires Valid()
      modifies this
      ensures var r := LogStep(old(Fields()), folderURL, folderDateFormat, rotationTime, config, Mode(filePermission),
                               cal, bytes, before, write, after);
              Fields() == r.state && events == old(events) + Notify(hasDelegate, r.removed)
    {
      ghost var s0, e0 := Fields(), events;
      ghost var first := Rotate(s0, folderURL, folderDateFormat, rotationTime, config, Mode(filePermission), cal, before);
      RotateFiles(before);
      disk := Append(disk, fileURL, bytes, write);
      ghost var second := Rotate(Fields(), folderURL, folderDateFormat, rotationTime, config, Mode(filePermission), cal, after);
      RotateFiles(after);
      NotifyConcat(hasDelegate, e0, first.removed, second.removed);
    }
  }
}
