/** An abstract filesystem standing in for Foundation's FileManager and
    FileHandle: a map from path to entry, plus the set of paths the operating
    system refuses to change (permission denied). The root `[]` always exists
    as a directory. */
module FileSystem {
  import opened Wrappers
  import opened Paths
  import opened Errors

  datatype Kind = RegularFile | Directory

  /** An entry's kind, byte size, modification time (integer seconds) and
      POSIX permission bits. */
  datatype Entry = Entry(kind: Kind, size: nat, mtime: int, mode: nat)

  datatype Disk = Disk(entries: map<Path, Entry>, locked: set<Path>)

  /** Permission bits of a directory created without attributes (0o755). */
  const DefaultDirectoryMode: nat := 493

  predicate IsDirectory(d: Disk, p: Path) {
    p == [] || (p in d.entries && d.entries[p].kind == Directory)
  }

  /** `attributesOfItem(atPath:)[.size]`; an absent path throws. */
  function FileSize(d: Disk, p: Path): Option<nat> {
    if p in d.entries then Some(d.entries[p].size) else None
  }

  /** The modification time used to order archives. */
  function ModificationTime(d: Disk, p: Path): int {
    if p in d.entries then d.entries[p].mtime else 0
  }

  /** `contentsOfDirectory`, with each name already appended to `dir`; throws
      unless `dir` is a directory. */
  function ContentsOfDirectory(d: Disk, dir: Path): (r: Option<set<Path>>)
    ensures r.Some? <==> IsDirectory(d, dir)
    ensures r.Some? ==> forall p :: p in r.value <==> p in d.entries && IsChildOf(p, dir)
  {
    if IsDirectory(d, dir) then Some(set p | p in d.entries && IsChildOf(p, dir)) else None
  }

  predicate CanMove(d: Disk, src: Path, dst: Path) {
    && src in d.entries && src !in d.locked
    && dst != [] && dst !in d.entries && dst !in d.locked
    && IsDirectory(d, Parent(dst))
  }

  /** `moveItem(at:to:)`: fails when the destination exists, so it never
      overwrites; the entry keeps its modification time. */
  function MoveItem(d: Disk, src: Path, dst: Path): (r: Option<Disk>)
    ensures r.Some? <==> CanMove(d, src, dst)
    ensures r.Some? ==> && src !in r.value.entries && dst in r.value.entries
                        && r.value.entries[dst] == d.entries[src]
                        && |r.value.entries| == |d.entries|
                        && r.value.locked == d.locked
                        && forall q :: q != src && q != dst ==>
                             (q in r.value.entries <==> q in d.entries) &&
                             (q in d.entries ==> r.value.entries[q] == d.entries[q])
  {
    if CanMove(d, src, dst) then
      var m := d.entries - {src};
      assert m.Keys == d.entries.Keys - {src};
      assert |m.Keys| == |d.entries.Keys| - 1;
      var m' := m[dst := d.entries[src]];
      assert m'.Keys == m.Keys + {dst};
      Some(Disk(m', d.locked))
    else None
  }

  /** `removeItem(at:)`: removes the entry and everything below it. */
  function RemoveItem(d: Disk, p: Path): (r: Option<Disk>)
    ensures r.Some? <==> p in d.entries && p !in d.locked
    ensures r.Some? ==> r.value.locked == d.locked
  {
    if p in d.entries && p !in d.locked then
      Some(Disk(map q | q in d.entries && !IsWithin(q, p) :: d.entries[q], d.locked))
    else None
  }

  /** A successful removal takes out `p` and everything below it, and leaves
      every other entry as it was. */
  lemma RemoveItemEffect(d: Disk, p: Path)
    requires RemoveItem(d, p).Some?
    ensures var d' := RemoveItem(d, p).value;
            forall q :: (q in d'.entries <==> q in d.entries && !IsWithin(q, p)) &&
                        (q in d'.entries ==> d'.entries[q] == d.entries[q])
  {
  }

  function Ancestor(dir: Path, k: nat): Path
    requires k <= |dir|
  {
    dir[..k]
  }

  /** Every component directory of `dir` exists as a directory or may be made. */
  predicate CanCreateDirectory(d: Disk, dir: Path) {
    forall k :: 1 <= k <= |dir| ==>
      if Ancestor(dir, k) in d.entries then d.entries[Ancestor(dir, k)].kind == Directory
      else Ancestor(dir, k) !in d.locked
  }

  /** `createDirectory(at:withIntermediateDirectories: true)`: creates every
      missing directory on the way; succeeds on an existing directory. */
  function CreateDirectory(d: Disk, dir: Path, now: int): (r: Option<Disk>)
    ensures r.Some? <==> CanCreateDirectory(d, dir)
    ensures r.Some? ==> && IsDirectory(r.value, dir)
                        && r.value.locked == d.locked
                        && (forall q :: q in d.entries ==> q in r.value.entries && r.value.entries[q] == d.entries[q])
                        && (forall q :: q in r.value.entries && q !in d.entries ==> IsWithin(dir, q))
  {
    if CanCreateDirectory(d, dir) then
      var missing := set k | 1 <= k <= |dir| && Ancestor(dir, k) !in d.entries :: Ancestor(dir, k);
      var r := Disk(d.entries + map q | q in missing :: Entry(Directory, 0, now, DefaultDirectoryMode), d.locked);
      assert dir != [] ==> Ancestor(dir, |dir|) == dir;
      Some(r)
    else None
  }

  /** Every component directory of `dir` exists as a directory. */
  ghost predicate ChainExists(d: Disk, dir: Path) {
    forall k :: 1 <= k <= |dir| ==> Ancestor(dir, k) in d.entries && d.entries[Ancestor(dir, k)].kind == Directory
  }

  /** `createDirectory` leaves every directory of the chain in place. */
  lemma CreateDirectoryMakesChain(d: Disk, dir: Path, now: int)
    requires CanCreateDirectory(d, dir)
    ensures ChainExists(CreateDirectory(d, dir, now).value, dir)
  {
  }

  /** Creating a directory chain that exists changes nothing. */
  lemma CreateExistingDirectory(d: Disk, dir: Path, now: int)
    requires ChainExists(d, dir)
    ensures CreateDirectory(d, dir, now) == Some(d)
  {
    var missing := set k | 1 <= k <= |dir| && Ancestor(dir, k) !in d.entries :: Ancestor(dir, k);
    assert missing == {};
    assert CreateDirectory(d, dir, now).value.entries == d.entries;
  }

  predicate CanCreateFile(d: Disk, p: Path) {
    && p != [] && p !in d.locked
    && IsDirectory(d, Parent(p))
    && !(p in d.entries && d.entries[p].kind == Directory)
  }

  /** `createFile(atPath:contents: nil, attributes: [.posixPermissions: mode])`:
      an empty regular file with the given permission bits. */
  function CreateFile(d: Disk, p: Path, mode: nat, now: int): (r: Option<Disk>)
    ensures r.Some? <==> CanCreateFile(d, p)
    ensures r.Some? ==> && r.value.entries == d.entries[p := Entry(RegularFile, 0, now, mode)]
                        && r.value.locked == d.locked
  {
    if CanCreateFile(d, p) then Some(Disk(d.entries[p := Entry(RegularFile, 0, now, mode)], d.locked)) else None
  }

  /** `FileHandle(forWritingTo:)` succeeds. */
  predicate CanOpenForWriting(d: Disk, p: Path) {
    p in d.entries && d.entries[p].kind == RegularFile && p !in d.locked
  }

  /** The abstract `append`: the target grows by `bytes` and is stamped `now`;
      a target that cannot be opened is left alone. */
  function Append(d: Disk, p: Path, bytes: nat, now: int): (r: Disk)
    ensures r.locked == d.locked && r.entries.Keys == d.entries.Keys
    ensures CanOpenForWriting(d, p) ==> r.entries[p].size == d.entries[p].size + bytes && r.entries[p].mtime == now
    ensures forall q :: q in d.entries && q != p ==> r.entries[q] == d.entries[q]
  {
    if CanOpenForWriting(d, p) then
      var e := d.entries[p];
      Disk(d.entries[p := e.(size := e.size + bytes, mtime := now)], d.locked)
    else d
  }

  /** The disk after opening a target, and the error thrown, if any. */
  datatype Opened = Opened(disk: Disk, error: Option<FileError>)

  /** Creates the target empty with permission `mode` when it is absent, then
      opens it for writing. An existing target is left as it is. */
  function CreateIfAbsentAndOpen(d: Disk, p: Path, mode: nat, now: int): (r: Opened)
    ensures p in d.entries ==> r.disk == d
    ensures p in d.entries ==> (r.error == if CanOpenForWriting(d, p) then None else Some(OpeningForWritingFailed(p)))
    ensures p !in d.entries ==> (r.error == if CanCreateFile(d, p) then None else Some(CreatingFileFailed(p)))
    ensures p !in d.entries && r.error.None? ==> r.disk.entries == d.entries[p := Entry(RegularFile, 0, now, mode)]
    ensures r.error.Some? && p !in d.entries ==> r.disk == d
    ensures r.error.None? ==> CanOpenForWriting(r.disk, p) && forall q :: q in d.entries ==> q in r.disk.entries
  {
    if p !in d.entries then
      match CreateFile(d, p, mode, now)
      case None => Opened(d, Some(CreatingFileFailed(p)))
      case Some(d') => Opened(d', None)
    else if CanOpenForWriting(d, p) then Opened(d, None)
    else Opened(d, Some(OpeningForWritingFailed(p)))
  }

  predicate IsOctalDigits(s: string) {
    forall i :: 0 <= i < |s| ==> '0' <= s[i] <= '7'
  }

  function OctalValue(s: string): nat
    requires IsOctalDigits(s)
  {
    if s == [] then 0 else 8 * OctalValue(s[..|s| - 1]) + (s[|s| - 1] as int - '0' as int)
  }

  /** The digits of a numeral after its optional sign. */
  function Unsigned(s: string): (u: string)
    ensures |u| <= |s|
  {
    if s != [] && (s[0] == '+' || s[0] == '-') then s[1..] else s
  }

  /** `UInt16(filePermission, radix: 8)`: an optional sign, then octal digits
      whose value fits 16 bits; an unsigned type takes a `-` only before a
      zero value. */
  function ParseOctal(s: string): (r: Option<nat>)
    ensures r.Some? ==> r.value < 0x1_0000
    ensures r.Some? ==> && Unsigned(s) != [] && IsOctalDigits(Unsigned(s)) && r.value == OctalValue(Unsigned(s))
                        && (s[0] == '-' ==> r.value == 0)
  {
    var u := Unsigned(s);
    if u == [] || !IsOctalDigits(u) || OctalValue(u) >= 0x1_0000 then None
    else if s[0] == '-' && OctalValue(u) != 0 then None
    else Some(OctalValue(u))
  }

  /** A `+` changes nothing, and a `-` is accepted exactly before a zero
      value. */
  lemma ParseOctalSign(s: string)
    requires s != [] && IsOctalDigits(s)
    ensures ParseOctal("+" + s) == ParseOctal(s)
    ensures ParseOctal("-" + s) == if OctalValue(s) == 0 then Some(0) else None
  {
    assert ("+" + s)[1..] == s && ("-" + s)[1..] == s;
    assert s[0] != '+' && s[0] != '-' by { assert '0' <= s[0] <= '7'; }
  }

  /** The default permission "640" is rw-r-----; an out-of-range digit or a
      non-digit is rejected. */
  lemma ParseOctalExamples()
    ensures ParseOctal("640") == Some(416)
    ensures ParseOctal("999") == None && ParseOctal("abc") == None && ParseOctal("") == None
    ensures ParseOctal("+640") == Some(416) && ParseOctal("-0") == Some(0)
    ensures ParseOctal("+") == None && ParseOctal("-") == None && ParseOctal("-1") == None
  {
    assert OctalValue("6") == 6;
    assert "640"[..2] == "64" && "64"[..1] == "6";
    assert OctalValue("64") == 52;
    assert !IsOctalDigits("999") by { assert !('0' <= "999"[0] <= '7'); }
    assert !IsOctalDigits("abc") by { assert !('0' <= "abc"[0] <= '7'); }
    assert Unsigned("+640") == "640" && Unsigned("-0") == "0" && Unsigned("-1") == "1";
    assert OctalValue("0") == 0 && OctalValue("1") == 1;
    assert Unsigned("+") == [] && Unsigned("-") == [];
  }
}
