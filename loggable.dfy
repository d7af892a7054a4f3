/** The helpers every file logger shares (`FileLoggerable`): validation of
    the target and of the permission string, and `openFile`. Their source is
    not part of this model; they are given the contracts their callers rely
    on. */
module Loggable {
  import opened Wrappers
  import opened Paths
  import opened Errors
  import opened FileSystem

  /** The largest permission accepted, octal 777. */
  const MaxPermission: nat := 511

  /** The permission string is an octal number no larger than 777. */
  predicate ValidPermission(permission: string) {
    ParseOctal(permission).Some? && ParseOctal(permission).value <= MaxPermission
  }

  /** `uintPermission`: `UInt16(filePermission, radix: 8)!`; the validation
      at construction guarantees that the unwrap succeeds. */
  function Mode(permission: string): (mode: nat)
    requires ValidPermission(permission)
    ensures mode <= MaxPermission
  {
    ParseOctal(permission).value
  }

  /** `openFile`: create the target's directory chain, create the target
      empty when it is absent, then open it for writing. */
  function OpenFile(d: Disk, p: Path, mode: nat, now: int): (r: Opened)
    ensures !CanCreateDirectory(d, Parent(p)) ==> r == Opened(d, Some(CreatingDirectoryFailed(Parent(p))))
    ensures r.error.None? ==> CanOpenForWriting(r.disk, p)
    ensures forall q :: q in d.entries ==> q in r.disk.entries && r.disk.entries[q] == d.entries[q]
    ensures p !in d.entries && r.error.None? ==> r.disk.entries[p] == Entry(RegularFile, 0, now, mode)
    ensures r.disk.locked == d.locked
    ensures forall q :: q in r.disk.entries && q !in d.entries ==> q == p || IsWithin(Parent(p), q)
  {
    match CreateDirectory(d, Parent(p), now)
    case None => Opened(d, Some(CreatingDirectoryFailed(Parent(p))))
    case Some(d') =>
      assert p !in d.entries ==> p !in d'.entries;
      CreateIfAbsentAndOpen(d', p, mode, now)
  }

  /** Besides the file itself, `openFile` adds only directories on the way
      to its directory, so no other entry of that directory appears. */
  lemma OpenFileAddsNoSibling(d: Disk, p: Path, mode: nat, now: int)
    ensures var r := OpenFile(d, p, mode, now);
            forall q :: q in r.disk.entries && q !in d.entries && IsChildOf(q, Parent(p)) ==> q == p
  {
  }

  /** The construction of a single-file logger: `validateFileURL` (a URL
      with a directory path is not a file), `validateFilePermission`, then
      `openFile`. The disk is returned in both cases, since a failure after a
      directory was made leaves that directory behind. */
  function StartFile(d: Disk, url: Path, hasDirectoryPath: bool, permission: string, now: int): (r: Opened)
    ensures hasDirectoryPath ==> r == Opened(d, Some(IsNotFile(url)))
    ensures !hasDirectoryPath && !ValidPermission(permission) ==> r == Opened(d, Some(InvalidPermission(url, permission)))
    ensures !hasDirectoryPath && ValidPermission(permission) ==> r == OpenFile(d, url, Mode(permission), now)
    ensures r.error.None? ==> ValidPermission(permission) && CanOpenForWriting(r.disk, url)
  {
    if hasDirectoryPath then Opened(d, Some(IsNotFile(url)))
    else if !ValidPermission(permission) then Opened(d, Some(InvalidPermission(url, permission)))
    else OpenFile(d, url, Mode(permission), now)
  }

  /** The validation of a folder logger: `validateFolderURL` (a URL without a
      directory path is not a directory), then `validateFolderPermission`. */
  function ValidateFolder(url: Path, hasDirectoryPath: bool, permission: string): (r: Option<FileError>)
    ensures r.None? <==> hasDirectoryPath && ValidPermission(permission)
    ensures !hasDirectoryPath ==> r == Some(IsNotDirectory(url))
    ensures hasDirectoryPath && !ValidPermission(permission) ==> r == Some(InvalidFolderPermission(url, permission))
  {
    if !hasDirectoryPath then Some(IsNotDirectory(url))
    else if !ValidPermission(permission) then Some(InvalidFolderPermission(url, permission))
    else None
  }

  /** The default permission "640" passes validation. */
  lemma DefaultPermissionValid()
    ensures ValidPermission("640") && Mode("640") == 416
  {
    ParseOctalExamples();
  }
}
