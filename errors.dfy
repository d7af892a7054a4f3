/** The loggers' error type and its human-readable descriptions. */
module Errors {
  import opened Wrappers
  import opened Paths

  /** Every case carries the URL it concerns; the permission cases also carry
      the rejected permission string. Equality is structural: same case and
      equal payloads. */
  datatype FileError =
    | IsNotFile(url: Path)
    | IsNotDirectory(url: Path)
    | InvalidPermission(url: Path, permission: string)
    | InvalidFolderPermission(url: Path, permission: string)
    | CreatingDirectoryFailed(url: Path)
    | CreatingFileFailed(url: Path)
    | OpeningForWritingFailed(url: Path)
    | DeletingFailed(url: Path)

  /** The case of an error without its payload. */
  datatype ErrorKind =
    | NotFile | NotDirectory | BadPermission | BadFolderPermission
    | DirectoryNotCreated | FileNotCreated | NotOpenedForWriting | NotDeleted

  function KindOf(e: FileError): ErrorKind {
    match e
    case IsNotFile(_) => NotFile
    case IsNotDirectory(_) => NotDirectory
    case InvalidPermission(_, _) => BadPermission
    case InvalidFolderPermission(_, _) => BadFolderPermission
    case CreatingDirectoryFailed(_) => DirectoryNotCreated
    case CreatingFileFailed(_) => FileNotCreated
    case OpeningForWritingFailed(_) => NotOpenedForWriting
    case DeletingFailed(_) => NotDeleted
  }

  /** How a file URL prints in string interpolation: `file:///a/b`, and
      `file:///a/b/` for a URL with a directory path. */
  function UrlText(p: Path, isDirectory: bool): (s: string)
    ensures |s| >= 7 && s[..7] == "file://"
    ensures isDirectory ==> s[|s| - 1] == '/' && s[..|s| - 1] == UrlText(p, false)
    ensures !isDirectory && p != [] && p[|p| - 1] != "" ==> s[|s| - 1] == p[|p| - 1][|p[|p| - 1]| - 1]
  {
    var t := "file://" + Components(p);
    ComponentsEnd(p);
    if isDirectory then t + "/" else t
  }

  /** A path's text ends with its last component. */
  lemma ComponentsEnd(p: Path)
    ensures p != [] && p[|p| - 1] != "" ==> Components(p)[|Components(p)| - 1] == p[|p| - 1][|p[|p| - 1]| - 1]
  {
  }

  /** The URLs with a directory path: the target of `isNotFile` and the
      folder of `invalidFolderPermission` passed `hasDirectoryPath`, and a
      directory to create is a folder URL, a URL extended with
      `isDirectory: true` or a `deletingLastPathComponent()`. */
  predicate NamesDirectory(e: FileError) {
    e.IsNotFile? || e.InvalidFolderPermission? || e.CreatingDirectoryFailed?
  }

  /** The URL of an error as it prints. */
  function ErrorUrl(e: FileError): string {
    UrlText(e.url, NamesDirectory(e))
  }

  function Components(p: Path): string {
    if p == [] then "" else Components(p[..|p| - 1]) + "/" + p[|p| - 1]
  }

  const NotDirectorySuffix := " is not a Directory"
  const NotFileSuffix := " is not a file"
  const PermissionLead := "invalid file permission. "
  const FilePermissionPrefix := PermissionLead + "file: "
  const FolderPermissionPrefix := PermissionLead + "Folder: "
  const PermissionInfix := ", permission: "
  const DirectoryPrefix := "failed to create a directory: "
  const FilePrefix := "failed to create a file: "
  const WritingPrefix := "failed to open a file for writing: "
  const DeletingPrefix := "failed to delete a file: "

  /** `errorDescription`: never nil. */
  function ErrorDescription(e: FileError): (r: Option<string>)
    ensures r.Some?
  {
    match e
    case IsNotDirectory(u) => Some(ErrorUrl(e) + NotDirectorySuffix)
    case IsNotFile(u) => Some(ErrorUrl(e) + NotFileSuffix)
    case InvalidPermission(u, p) => Some(FilePermissionPrefix + ErrorUrl(e) + PermissionInfix + p)
    case InvalidFolderPermission(u, p) => Some(FolderPermissionPrefix + ErrorUrl(e) + PermissionInfix + p)
    case CreatingDirectoryFailed(u) => Some(DirectoryPrefix + ErrorUrl(e))
    case CreatingFileFailed(u) => Some(FilePrefix + ErrorUrl(e))
    case OpeningForWritingFailed(u) => Some(WritingPrefix + ErrorUrl(e))
    case DeletingFailed(u) => Some(DeletingPrefix + ErrorUrl(e))
  }

  predicate HasPrefix(s: string, pre: string) {
    |pre| <= |s| && s[..|pre|] == pre
  }

  predicate HasSuffix(s: string, suf: string) {
    |suf| <= |s| && s[|s| - |suf|..] == suf
  }

  /** Reads the error case back from a description. */
  function Classify(s: string): Option<ErrorKind> {
    if HasPrefix(s, DirectoryPrefix) then Some(DirectoryNotCreated)
    else if HasPrefix(s, FilePrefix) then Some(FileNotCreated)
    else if HasPrefix(s, WritingPrefix) then Some(NotOpenedForWriting)
    else if HasPrefix(s, DeletingPrefix) then Some(NotDeleted)
    else if HasPrefix(s, FilePermissionPrefix) then Some(BadPermission)
    else if HasPrefix(s, FolderPermissionPrefix) then Some(BadFolderPermission)
    else if HasSuffix(s, NotDirectorySuffix) then Some(NotDirectory)
    else if HasSuffix(s, NotFileSuffix) then Some(NotFile)
    else None
  }

  lemma PrefixOf(pre: string, rest: string)
    ensures HasPrefix(pre + rest, pre)
  {
    assert (pre + rest)[..|pre|] == pre;
  }

  lemma SuffixOf(rest: string, suf: string)
    ensures HasSuffix(rest + suf, suf)
  {
    assert (rest + suf)[|rest|..] == suf;
  }

  lemma PrefixMismatch(s: string, pre: string, j: nat)
    requires j < |pre| && j < |s| && s[j] != pre[j]
    ensures !HasPrefix(s, pre)
  {
  }

  lemma SuffixMismatch(s: string, suf: string)
    requires |suf| > 0 && |s| > 0 && s[|s| - 1] != suf[|suf| - 1]
    ensures !HasSuffix(s, suf)
  {
  }

  /** A description that starts with a URL matches none of the prefixes. */
  lemma NoPrefixBeforeUrl(t: string, rest: string)
    requires |t| >= 7 && t[..7] == "file://"
    ensures Classify(t + rest) == (if HasSuffix(t + rest, NotDirectorySuffix) then Some(NotDirectory)
                                  else if HasSuffix(t + rest, NotFileSuffix) then Some(NotFile)
                                  else None)
  {
    var s := t + rest;
    assert s[0] == t[..7][0] == 'f' && s[1] == t[..7][1] == 'i';
    PrefixMismatch(s, DirectoryPrefix, 1);
    PrefixMismatch(s, FilePrefix, 1);
    PrefixMismatch(s, WritingPrefix, 1);
    PrefixMismatch(s, DeletingPrefix, 1);
    PrefixMismatch(s, FilePermissionPrefix, 0);
    PrefixMismatch(s, FolderPermissionPrefix, 0);
  }

  /** Each description begins with its case's fixed wording, or for the two
      "is not" cases ends with it, so the case can be read back from the text. */
  lemma DescriptionIdentifiesCase(e: FileError)
    ensures Classify(ErrorDescription(e).value) == Some(KindOf(e))
  {
    if e.IsNotDirectory? || e.IsNotFile? {
      UrlFirstIdentified(e);
    } else if e.InvalidPermission? || e.InvalidFolderPermission? {
      PermissionIdentified(e);
    } else {
      FailureIdentified(e);
    }
  }

  lemma UrlFirstIdentified(e: FileError)
    requires e.IsNotDirectory? || e.IsNotFile?
    ensures Classify(ErrorDescription(e).value) == Some(KindOf(e))
  {
    var s := ErrorDescription(e).value;
    var t := ErrorUrl(e);
    if e.IsNotDirectory? {
      NoPrefixBeforeUrl(t, NotDirectorySuffix);
      SuffixOf(t, NotDirectorySuffix);
    } else {
      NoPrefixBeforeUrl(t, NotFileSuffix);
      SuffixMismatch(s, NotDirectorySuffix);
      SuffixOf(t, NotFileSuffix);
    }
  }

  lemma PermissionIdentified(e: FileError)
    requires e.InvalidPermission? || e.InvalidFolderPermission?
    ensures Classify(ErrorDescription(e).value) == Some(KindOf(e))
  {
    var s := ErrorDescription(e).value;
    var rest := ErrorUrl(e) + PermissionInfix + e.permission;
    var pre := if e.InvalidPermission? then FilePermissionPrefix else FolderPermissionPrefix;
    assert s == pre + rest;
    PermissionText(pre, rest, e.InvalidFolderPermission?);
  }

  /** A text with one of the two permission prefixes is read back as that case. */
  lemma PermissionText(pre: string, rest: string, folder: bool)
    requires pre == if folder then FolderPermissionPrefix else FilePermissionPrefix
    ensures Classify(pre + rest) == Some(if folder then BadFolderPermission else BadPermission)
  {
    var s := pre + rest;
    CharOfPrefix(pre, rest, 0);
    assert pre[0] == 'i';
    NoFailurePrefix(s);
    PrefixOf(pre, rest);
    if folder {
      CharOfPrefix(pre, rest, |PermissionLead|);
      assert FilePermissionPrefix[|PermissionLead|] == 'f';
      PrefixMismatch(s, FilePermissionPrefix, |PermissionLead|);
    }
  }

  /** A text starting with 'i' has none of the failure prefixes. */
  lemma NoFailurePrefix(s: string)
    requires |s| > 0 && s[0] == 'i'
    ensures !HasPrefix(s, DirectoryPrefix) && !HasPrefix(s, FilePrefix)
    ensures !HasPrefix(s, WritingPrefix) && !HasPrefix(s, DeletingPrefix)
  {
    PrefixMismatch(s, DirectoryPrefix, 0);
    PrefixMismatch(s, FilePrefix, 0);
    PrefixMismatch(s, WritingPrefix, 0);
    PrefixMismatch(s, DeletingPrefix, 0);
  }

  lemma CharOfPrefix(pre: string, rest: string, j: nat)
    requires j < |pre|
    ensures (pre + rest)[j] == pre[j]
  {
  }

  lemma FailureIdentified(e: FileError)
    requires e.CreatingDirectoryFailed? || e.CreatingFileFailed? || e.OpeningForWritingFailed? || e.DeletingFailed?
    ensures Classify(ErrorDescription(e).value) == Some(KindOf(e))
  {
    var s := ErrorDescription(e).value;
    var t := ErrorUrl(e);
    match e
    case CreatingDirectoryFailed(u) =>
      PrefixOf(DirectoryPrefix, t);
    case CreatingFileFailed(u) =>
      PrefixMismatch(s, DirectoryPrefix, 19);
      PrefixOf(FilePrefix, t);
    case OpeningForWritingFailed(u) =>
      PrefixMismatch(s, DirectoryPrefix, 10);
      PrefixMismatch(s, FilePrefix, 10);
      PrefixOf(WritingPrefix, t);
    case DeletingFailed(u) =>
      PrefixMismatch(s, DirectoryPrefix, 10);
      PrefixMismatch(s, FilePrefix, 10);
      PrefixMismatch(s, WritingPrefix, 10);
      PrefixOf(DeletingPrefix, t);
  }

  /** `t` occurs in `s` at position `i`. */
  predicate OccursAt(s: string, t: string, i: nat) {
    i + |t| <= |s| && s[i..i + |t|] == t
  }

  /** Every description names the URL the error is about, with a trailing
      `/` exactly for the directory URLs. */
  lemma DescriptionNamesUrl(e: FileError)
    ensures exists i :: OccursAt(ErrorDescription(e).value, UrlText(e.url, NamesDirectory(e)), i)
  {
    var pre, post := DescriptionFraming(e);
    InfixOccurs(pre, ErrorUrl(e), post);
  }

  /** The two permission messages end with the rejected permission, after
      ", permission: ". */
  lemma DescriptionNamesPermission(e: FileError)
    requires e.InvalidPermission? || e.InvalidFolderPermission?
    ensures HasSuffix(ErrorDescription(e).value, PermissionInfix + e.permission)
  {
    var pre := if e.InvalidPermission? then FilePermissionPrefix else FolderPermissionPrefix;
    SuffixOf(pre + ErrorUrl(e), PermissionInfix + e.permission);
  }

  /** The text before and after the URL in a description. */
  lemma DescriptionFraming(e: FileError) returns (pre: string, post: string)
    ensures ErrorDescription(e).value == pre + UrlText(e.url, NamesDirectory(e)) + post
  {
    var t := ErrorUrl(e);
    if e.IsNotDirectory? || e.IsNotFile? {
      pre, post := "", if e.IsNotDirectory? then NotDirectorySuffix else NotFileSuffix;
      assert ErrorDescription(e).value == t + post;
      assert pre + t == t;
    } else if e.InvalidPermission? || e.InvalidFolderPermission? {
      pre := if e.InvalidPermission? then FilePermissionPrefix else FolderPermissionPrefix;
      post := PermissionInfix + e.permission;
      assert ErrorDescription(e).value == pre + t + PermissionInfix + e.permission;
    } else {
      pre := match e
        case CreatingDirectoryFailed(_) => DirectoryPrefix
        case CreatingFileFailed(_) => FilePrefix
        case OpeningForWritingFailed(_) => WritingPrefix
        case _ => DeletingPrefix;
      post := "";
      assert ErrorDescription(e).value == pre + t;
      assert pre + t + post == pre + t;
    }
  }

  lemma InfixOccurs(pre: string, t: string, post: string)
    ensures OccursAt(pre + t + post, t, |pre|)
  {
    assert (pre + t + post)[|pre|..|pre| + |t|] == t;
  }
}
