/** What the daily and the time logger share: a log folder whose
    subdirectories are the archives, the opening of a dated target inside a
    directory made for it (`openDailyFile`), and the delegate's
    `didRemoveArchivesURL` notifications. */
module FolderLogging {
  import opened Wrappers
  import opened Paths
  import opened Errors
  import opened FileSystem
  import opened Archives

  /** `$0.hasDirectoryPath` on a URL from `contentsOfDirectory(at:)`, which
      marks the URLs of directories. */
  function IsSubfolder(): Filter {
    (p: Path, e: Entry) => e.kind == Directory
  }

  /** `ascArchivesURLs(folderURL)` over subdirectories: the directories
      directly inside the folder, oldest first; an unreadable folder gives none. */
  function Subfolders(d: Disk, folder: Path): (r: seq<Path>)
    ensures IsDirectory(d, folder) ==>
              forall p :: p in r <==> p in d.entries && IsChildOf(p, folder) && d.entries[p].kind == Directory
    ensures !IsDirectory(d, folder) ==> r == []
  {
    Catalogue(d, folder, IsSubfolder())
  }

  /** The fields of a folder logger that `openDailyFile` and `rotateFiles`
      reassign: the disk they act on, the anchor `currentDate` and the target `fileURL`. */
  datatype State = State(disk: Disk, currentDate: Option<int>, fileURL: Path)

  /** The state after `openDailyFile`, and the error it throws, if any. */
  datatype Opening = Opening(state: State, error: Option<FileError>)

  /** The state after `rotateFiles`, the archives it removed (one delegate
      call each) and the error of its `openDailyFile`, which is printed and
      dropped. */
  datatype Checked = Checked(state: State, removed: seq<Path>, reopenError: Option<FileError>)

  /** The state and the removals after `log`. */
  datatype Logged = Logged(state: State, removed: seq<Path>)

  /** The file name of a dated target: `swift_<stamp>.log`. */
  function TargetName(stamp: string): string {
    "swift_" + stamp + ".log"
  }

  /** Different stamps name different targets. */
  lemma TargetNameInjective(a: string, b: string)
    requires TargetName(a) == TargetName(b)
    ensures a == b
  {
    var s := TargetName(a);
    assert |a| == |b|;
    assert a == s[6..6 + |a|];
    assert b == TargetName(b)[6..6 + |b|];
  }

  /** The disk, the target URL and the thrown error after the file steps of
      `openDailyFile`. */
  datatype Reopened = Reopened(disk: Disk, fileURL: Path, error: Option<FileError>)

  /** The file steps of `openDailyFile`: create `dir` with its intermediate
      directories, throwing `creatingDirectoryFailed` with `fileURL` left as
      it was; point `fileURL` at `dir/name`; create that file when absent
      and open it for writing. */
  function OpenIn(d: Disk, dir: Path, name: string, fileURL: Path, mode: nat, now: int): (r: Reopened)
    ensures !CanCreateDirectory(d, dir) ==> r == Reopened(d, fileURL, Some(CreatingDirectoryFailed(dir)))
    ensures CanCreateDirectory(d, dir) ==> r.fileURL == Child(dir, name)
    ensures r.error.None? ==> CanOpenForWriting(r.disk, r.fileURL) && ChainExists(r.disk, dir)
    ensures r.disk.locked == d.locked
  {
    match CreateDirectory(d, dir, now)
    case None => Reopened(d, fileURL, Some(CreatingDirectoryFailed(dir)))
    case Some(made) =>
      var target := Child(dir, name);
      var o := CreateIfAbsentAndOpen(made, target, mode, now);
      CreateDirectoryMakesChain(d, dir, now);
      ChainKept(made, o.disk, dir);
      Reopened(o.disk, target, o.error)
  }

  /** The target steps of `openDailyFile`: `createFile` when the target is
      absent, then `FileHandle(forWritingTo:)`. */
  method OpenTarget(d: Disk, target: Path, mode: nat, now: int) returns (r: Opened)
    ensures r == CreateIfAbsentAndOpen(d, target, mode, now)
  {
    var disk := d;
    if target !in disk.entries {
      var created := CreateFile(disk, target, mode, now);
      if created.None? {
        return Opened(d, Some(CreatingFileFailed(target)));
      }
      disk := created.value;
    }
    if !CanOpenForWriting(disk, target) {
      return Opened(disk, Some(OpeningForWritingFailed(target)));
    }
    return Opened(disk, None);
  }

  /** A step that keeps every entry keeps the directories of `dir`. */
  lemma ChainKept(d: Disk, d': Disk, dir: Path)
    requires ChainExists(d, dir)
    requires forall q :: q in d.entries ==> q in d'.entries && d'.entries[q] == d.entries[q]
    ensures ChainExists(d', dir)
  {
  }

  /** When the directory can be made, `openDailyFile` keeps what was on disk,
      leaves an existing target as it is, creates an absent one empty with
      permission `mode`, and throws `creatingFileFailed` or
      `openingForWritingFailed` for that target. */
  lemma OpenInTarget(d: Disk, dir: Path, name: string, fileURL: Path, mode: nat, now: int)
    requires CanCreateDirectory(d, dir)
    ensures var r := OpenIn(d, dir, name, fileURL, mode, now);
            var t := Child(dir, name);
            && (forall q :: q in d.entries ==> q in r.disk.entries && r.disk.entries[q] == d.entries[q])
            && (t !in d.entries && r.error.None? ==> r.disk.entries[t] == Entry(RegularFile, 0, now, mode))
            && (r.error.Some? ==> r.error == Some(if t in d.entries then OpeningForWritingFailed(t) else CreatingFileFailed(t)))
  {
    var made := CreateDirectory(d, dir, now).value;
    var t := Child(dir, name);
    assert !IsWithin(dir, t);
    assert t in made.entries <==> t in d.entries;
  }

  /** Opening the same target again, once it is open, changes nothing and
      throws nothing. */
  lemma OpenInAgain(d: Disk, dir: Path, name: string, fileURL: Path, mode: nat, now: int, fileURL': Path, later: int)
    requires OpenIn(d, dir, name, fileURL, mode, now).error.None?
    ensures var r := OpenIn(d, dir, name, fileURL, mode, now);
            OpenIn(r.disk, dir, name, fileURL', mode, later) == Reopened(r.disk, r.fileURL, None)
  {
    var r := OpenIn(d, dir, name, fileURL, mode, now);
    CreateExistingDirectory(r.disk, dir, later);
    assert r.fileURL == Child(dir, name);
  }

  /** A target opened in a subdirectory of the folder leaves that
      subdirectory among the archives the folder lists. */
  lemma OpenedFolderIsListed(d: Disk, folder: Path, sub: string, name: string, fileURL: Path, mode: nat, now: int)
    requires OpenIn(d, Child(folder, sub), name, fileURL, mode, now).error.None?
    ensures Child(folder, sub) in Subfolders(OpenIn(d, Child(folder, sub), name, fileURL, mode, now).disk, folder)
  {
    var dir := Child(folder, sub);
    var r := OpenIn(d, dir, name, fileURL, mode, now);
    assert Ancestor(dir, |dir|) == dir;
    if folder != [] {
      assert Ancestor(dir, |folder|) == folder;
    }
  }

  /** Opening a target in a subdirectory of a listed folder adds no
      subdirectory but that one, keeps the others, and adds it when the
      opening succeeds. */
  lemma OpenInListing(d: Disk, folder: Path, sub: string, name: string, fileURL: Path, mode: nat, now: int)
    requires IsDirectory(d, folder)
    ensures var dir := Child(folder, sub);
            var r := OpenIn(d, dir, name, fileURL, mode, now);
            && IsDirectory(r.disk, folder)
            && Kept(d, folder, IsSubfolder()) <= Kept(r.disk, folder, IsSubfolder()) <= Kept(d, folder, IsSubfolder()) + {dir}
            && (r.error.None? ==> dir in Kept(r.disk, folder, IsSubfolder()))
  {
    var dir := Child(folder, sub);
    var r := OpenIn(d, dir, name, fileURL, mode, now);
    if CanCreateDirectory(d, dir) {
      var made := CreateDirectory(d, dir, now).value;
      var t := Child(dir, name);
      var o := CreateIfAbsentAndOpen(made, t, mode, now);
      assert r.disk == o.disk;
      forall q | q in r.disk.entries && q !in d.entries && IsChildOf(q, folder) && IsSubfolder()(q, r.disk.entries[q])
        ensures q in {dir}
      {
        if q in made.entries {
          assert IsWithin(dir, q) && |q| == |dir|;
          assert q == dir[..|q|] == dir;
        }
      }
      OpenInTarget(d, dir, name, fileURL, mode, now);
      KeptGrows(d, r.disk, folder, IsSubfolder(), {dir});
      if r.error.None? {
        assert Ancestor(dir, |dir|) == dir;
      }
    } else {
      KeptGrows(d, r.disk, folder, IsSubfolder(), {});
    }
  }

  /** A rotating check removes the subdirectories beyond `maxArchives` and
      then opens a target in `Child(folder, sub)`: when every excess one can
      be removed, the folder lists `min(count, maxArchives)` subdirectories if
      that directory survived the prune, and one more if it did not and the
      opening succeeded, so up to `maxArchives + 1` between two checks. */
  lemma PruneThenOpenCount(d: Disk, folder: Path, sub: string, name: string, fileURL: Path, mode: nat, now: int,
                           maxArchives: nat)
    requires IsDirectory(d, folder)
    requires var cat := Subfolders(d, folder);
             forall j :: 0 <= j < Excess(|cat|, maxArchives) ==> cat[j] !in d.locked
    ensures var cat := Subfolders(d, folder);
            var pruned := Pruned(d, cat, maxArchives);
            var dir := Child(folder, sub);
            var r := OpenIn(pruned.disk, dir, name, fileURL, mode, now);
            var m := if |cat| <= maxArchives then |cat| else maxArchives;
            var n := |Subfolders(r.disk, folder)|;
            && m <= n <= m + 1
            && (dir in Subfolders(pruned.disk, folder) ==> n == m)
            && (dir !in Subfolders(pruned.disk, folder) && r.error.None? ==> n == m + 1)
  {
    var cat := Subfolders(d, folder);
    var pruned := Pruned(d, cat, maxArchives);
    var dir := Child(folder, sub);
    var r := OpenIn(pruned.disk, dir, name, fileURL, mode, now);
    assert cat == Catalogue(d, folder, IsSubfolder());
    PruneBoundsArchives(d, folder, IsSubfolder(), maxArchives);
    PruneShape(d, cat, maxArchives);
    CatalogueUnnested(d, folder, IsSubfolder());
    forall p | p in pruned.removed ensures IsChildOf(p, folder) {
      assert p in cat;
    }
    KeptAfterRemoval(d, folder, IsSubfolder(), pruned.removed, pruned.disk);
    assert Subfolders(pruned.disk, folder) == Catalogue(pruned.disk, folder, IsSubfolder());
    CatalogueSize(pruned.disk, folder, IsSubfolder());
    OpenInListing(pruned.disk, folder, sub, name, fileURL, mode, now);
    CatalogueSize(r.disk, folder, IsSubfolder());
    SqueezedSize(Kept(pruned.disk, folder, IsSubfolder()), Kept(r.disk, folder, IsSubfolder()), dir);
  }
}
