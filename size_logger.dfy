/** `FileRotationLogger`: one target file, archived when it grows past
    `maxFileSize`. Old archives are renumbered (`.1` is the newest) or left
    alone (timestamp and UUID suffix); the oldest beyond `maxArchives` are then
    removed and a fresh target is opened. */
module SizeLogger {
  import opened Wrappers
  import opened Paths
  import opened Errors
  import opened FileSystem
  import opened Order
  import opened Config
  import opened Archives
  import opened Clock
  import opened Loggable

  /** The calls made on `FileRotationLoggerDelegate`, in order. */
  datatype Event = ArchivedFile(from: Path, to: Path) | RemovedArchive(url: Path)

  /** The pattern of the timestamp in a date and UUID suffix, rendered in UTC. */
  const ArchiveStampFormat: string := "yyyyMMdd'T'HHmmssZZZZZ"

  /** What a rotation check reads from the environment: the clock and, for a
      date and UUID suffix, a fresh UUID string. */
  datatype Moment = Moment(now: int, uuid: string)

  // ---------------------------------------------------------------- catalogue

  /** The filter of `ascArchivesURLs`: not the target, and the target once
      the last extension is deleted. */
  function IsArchiveOf(target: Path): Filter {
    (p: Path, e: Entry) => p != target && DeletingExtension(p) == target
  }

  /** `ascArchivesURLs(fileURL)`: the archives beside the target, oldest first;
      an unreadable directory gives none. */
  function ArchivesOf(d: Disk, target: Path): (r: seq<Path>)
    ensures forall p :: p in r ==> p in d.entries && IsChildOf(p, Parent(target)) && p != target && DeletingExtension(p) == target
    ensures IsDirectory(d, Parent(target)) ==>
              forall p :: p in d.entries && IsChildOf(p, Parent(target)) && p != target && DeletingExtension(p) == target ==> p in r
    ensures !IsDirectory(d, Parent(target)) ==> r == []
  {
    Catalogue(d, Parent(target), IsArchiveOf(target))
  }

  // ------------------------------------------------------------- renumbering

  /** The name of `archive` as generation `n`: its last extension replaced
      by the decimal `n`. */
  function Generation(archive: Path, n: nat): Path {
    AppendingExtension(DeletingExtension(archive), Decimal(n))
  }

  /** The loop of `rotateOldArchives` from index `i` on: the archive at index
      `j` is renamed to generation `|cat| + 1 - j` unless that name exists;
      a rename that throws ends the loop. */
  function RenumberFrom(d: Disk, cat: seq<Path>, i: nat): (r: Disk)
    requires i <= |cat|
    ensures |r.entries| == |d.entries| && r.locked == d.locked
    decreases |cat| - i
  {
    if i == |cat| then d
    else
      var dst := Generation(cat[i], |cat| + 1 - i);
      if dst in d.entries then RenumberFrom(d, cat, i + 1)
      else
        match MoveItem(d, cat[i], dst)
        case None => d
        case Some(d') => RenumberFrom(d', cat, i + 1)
  }

  /** `rotateOldArchives`: renumbering for `.numbering`, nothing for
      `.date_uuid`. */
  function OldArchivesRotated(d: Disk, target: Path, suffix: SuffixExtension): Disk {
    match suffix
    case Numbering => RenumberFrom(d, ArchivesOf(d, target), 0)
    case DateUuid => d
  }

  /** The loop of `rotateOldArchives` over the catalogue `cat`. */
  method Renumber(d: Disk, cat: seq<Path>) returns (r: Disk)
    ensures r == RenumberFrom(d, cat, 0)
  {
    r := d;
    var i := 0;
    var stopped := false;
    while i < |cat| && !stopped
      invariant i <= |cat|
      invariant RenumberFrom(d, cat, 0) == RenumberFrom(r, cat, i)
      invariant stopped ==> RenumberFrom(r, cat, i) == r
      decreases |cat| - i, if stopped then 0 else 1
    {
      var dst := Generation(cat[i], |cat| + 1 - i);
      RenumberStep(r, cat, i);
      if dst in r.entries {
        i := i + 1;
      } else {
        var moved := MoveItem(r, cat[i], dst);
        if moved.None? {
          stopped := true;
        } else {
          r := moved.value;
          i := i + 1;
        }
      }
    }
  }

  /** A rename never lands on an existing entry: every entry outside the
      catalogue keeps its path and contents, and the number of entries is
      unchanged. */
  lemma {:induction false} RenumberNeverClobbers(d: Disk, cat: seq<Path>, i: nat)
    requires i <= |cat|
    ensures var r := RenumberFrom(d, cat, i);
            forall q :: q in d.entries && q !in cat[i..] ==> q in r.entries && r.entries[q] == d.entries[q]
    decreases |cat| - i
  {
    if i < |cat| {
      var dst := Generation(cat[i], |cat| + 1 - i);
      RenumberStep(d, cat, i);
      SliceTail(cat, i);
      if dst in d.entries {
        RenumberNeverClobbers(d, cat, i + 1);
      } else {
        var m := MoveItem(d, cat[i], dst);
        if m.Some? {
          RenumberNeverClobbers(m.value, cat, i + 1);
          var r := RenumberFrom(m.value, cat, i + 1);
          forall q | q in d.entries && q !in cat[i..] ensures q in r.entries && r.entries[q] == d.entries[q] {
            assert q != cat[i] && q != dst;
            assert q in m.value.entries && m.value.entries[q] == d.entries[q];
          }
        }
      }
    }
  }

  /** `RenumberNeverClobbers` for one entry. */
  lemma RenumberKeeps(d: Disk, cat: seq<Path>, i: nat, q: Path)
    requires i <= |cat| && q in d.entries && q !in cat[i..]
    ensures q in RenumberFrom(d, cat, i).entries && RenumberFrom(d, cat, i).entries[q] == d.entries[q]
  {
    RenumberNeverClobbers(d, cat, i);
  }

  lemma SliceTail(cat: seq<Path>, i: nat)
    requires i < |cat|
    ensures cat[i] in cat[i..]
    ensures forall q :: q !in cat[i..] ==> q !in cat[i + 1..]
  {
    assert cat[i..] == [cat[i]] + cat[i + 1..];
  }

  /** The target of a logger: a non-empty path whose last component is a name. */
  predicate NamedTarget(target: Path) {
    target != [] && target[|target| - 1] != ""
  }

  /** Archive number `n` of `target`: `target.n`. */
  function Numbered(target: Path, n: nat): Path {
    AppendingExtension(target, Decimal(n))
  }

  lemma NumberedFacts(target: Path, k: nat, m: nat)
    requires NamedTarget(target)
    ensures DeletingExtension(Numbered(target, k)) == target
    ensures Generation(Numbered(target, k), m) == Numbered(target, m)
    ensures Parent(Numbered(target, k)) == Parent(target) && |Numbered(target, k)| == |target|
    ensures Numbered(target, k) != target
    ensures Numbered(target, k) == Numbered(target, m) ==> k == m
  {
    DecimalFacts(k);
    ExtensionRoundTrip(target, Decimal(k));
    ExtensionKeepsDirectory(target, Decimal(k));
    AppendingExtensionInjective(target, Decimal(k), Decimal(m));
    if Decimal(k) == Decimal(m) {
      DecimalInjective(k, m);
    }
  }

  lemma NumberedInjective(target: Path, a: nat, b: nat)
    requires NamedTarget(target) && a != b
    ensures Numbered(target, a) != Numbered(target, b)
  {
    NumberedFacts(target, a, b);
  }

  /** One step of the renumbering loop. */
  lemma RenumberStep(d: Disk, cat: seq<Path>, i: nat)
    requires i < |cat|
    ensures var dst := Generation(cat[i], |cat| + 1 - i);
            RenumberFrom(d, cat, i) ==
              if dst in d.entries then RenumberFrom(d, cat, i + 1)
              else if MoveItem(d, cat[i], dst).None? then d
              else RenumberFrom(MoveItem(d, cat[i], dst).value, cat, i + 1)
  {
  }

  /** Where the renumbering puts the archive at index `j`: the name of the
      archive listed before it, or the free name `top` for the oldest. */
  function Dest(cat: seq<Path>, top: Path, j: nat): Path
    requires j < |cat|
  {
    if j == 0 then top else cat[j - 1]
  }

  /** The catalogue `cat` of directory `dir` renames down a chain: each
      archive's next generation is the name of the archive listed before it,
      and the oldest one's is a fresh name `top` in the same directory. */
  ghost predicate Chain(cat: seq<Path>, top: Path, dir: Path) {
    && Distinct(cat) && top !in cat && IsChildOf(top, dir)
    && (forall j :: 0 <= j < |cat| ==> IsChildOf(cat[j], dir))
    && (forall j :: 0 <= j < |cat| ==> Link(cat, top, j))
  }

  /** The archive at index `j` is renamed to its destination. */
  ghost predicate Link(cat: seq<Path>, top: Path, j: nat)
    requires j < |cat|
  {
    Generation(cat[j], |cat| + 1 - j) == Dest(cat, top, j)
  }

  /** The archive at index `j` of `d` arrived at its destination in `r`. */
  ghost predicate Landed(r: Disk, d: Disk, cat: seq<Path>, top: Path, j: nat)
    requires j < |cat|
  {
    cat[j] in d.entries && Dest(cat, top, j) in r.entries && r.entries[Dest(cat, top, j)] == d.entries[cat[j]]
  }

  /** Archive `.g` of `d` is archive `.(g + 1)` of `r`. */
  ghost predicate MovedUp(r: Disk, d: Disk, target: Path, g: nat) {
    && Numbered(target, g) in d.entries && Numbered(target, g + 1) in r.entries
    && r.entries[Numbered(target, g + 1)] == d.entries[Numbered(target, g)]
  }

  /** Renumbering a chain whose archives from index `i` on exist, whose next
      free name is free and none of whose names is locked: every archive from
      index `i` on moves to its destination, and the newest name is left free. */
  lemma {:induction false} RenumberChain(d: Disk, cat: seq<Path>, top: Path, dir: Path, i: nat)
    requires i < |cat| && Chain(cat, top, dir) && IsDirectory(d, dir)
    requires forall j :: i <= j < |cat| ==> cat[j] in d.entries
    requires Dest(cat, top, i) !in d.entries
    requires top !in d.locked && forall j :: 0 <= j < |cat| ==> cat[j] !in d.locked
    ensures ChainDone(RenumberFrom(d, cat, i), d, cat, top, i)
    decreases |cat| - i
  {
    ChainStep(d, cat, top, dir, i);
    ChainMove(d, cat, top, dir, i);
    var dst := Dest(cat, top, i);
    var d' := MoveItem(d, cat[i], dst).value;
    var r := RenumberFrom(d', cat, i + 1);
    RenumberKeeps(d', cat, i + 1, dst);
    if i + 1 < |cat| {
      RenumberChain(d', cat, top, dir, i + 1);
      ChainDoneStep(r, d', d, cat, top, i);
    } else {
      RenumberEnd(d', cat, i + 1);
      ChainDoneLast(r, d', d, cat, top, i);
    }
  }

  /** The outcome of `RenumberChain` on `r`: every archive from index `i` on
      has landed, and the newest name is free. */
  ghost predicate ChainDone(r: Disk, d: Disk, cat: seq<Path>, top: Path, i: nat)
    requires i < |cat|
  {
    && cat[|cat| - 1] !in r.entries
    && forall j :: i <= j < |cat| ==> Landed(r, d, cat, top, j)
  }

  lemma ChainDoneLast(r: Disk, d': Disk, d: Disk, cat: seq<Path>, top: Path, i: nat)
    requires i + 1 == |cat| && cat[i] in d.entries && r == d' && cat[i] !in d'.entries
    requires Dest(cat, top, i) in d'.entries && d'.entries[Dest(cat, top, i)] == d.entries[cat[i]]
    ensures ChainDone(r, d, cat, top, i)
  {
    assert Landed(r, d, cat, top, i);
  }

  lemma ChainDoneStep(r: Disk, d': Disk, d: Disk, cat: seq<Path>, top: Path, i: nat)
    requires i + 1 < |cat| && cat[i] in d.entries && ChainDone(r, d', cat, top, i + 1)
    requires Dest(cat, top, i) in d'.entries && d'.entries[Dest(cat, top, i)] == d.entries[cat[i]]
    requires Dest(cat, top, i) in r.entries && r.entries[Dest(cat, top, i)] == d'.entries[Dest(cat, top, i)]
    requires forall j :: i < j < |cat| ==> cat[j] in d.entries && cat[j] in d'.entries && d'.entries[cat[j]] == d.entries[cat[j]]
    ensures ChainDone(r, d, cat, top, i)
  {
    forall j | i <= j < |cat| ensures Landed(r, d, cat, top, j) {
      if j > i {
        assert Landed(r, d', cat, top, j);
      }
    }
  }

  /** One rename of `RenumberChain`, apart from the renames after it: it
      succeeds, and the disk after it satisfies the conditions from index
      `i + 1` on. */
  lemma ChainStep(d: Disk, cat: seq<Path>, top: Path, dir: Path, i: nat)
    requires i < |cat| && Chain(cat, top, dir) && IsDirectory(d, dir)
    requires forall j :: i <= j < |cat| ==> cat[j] in d.entries
    requires Dest(cat, top, i) !in d.entries
    requires top !in d.locked && forall j :: 0 <= j < |cat| ==> cat[j] !in d.locked
    ensures CanMove(d, cat[i], Dest(cat, top, i))
    ensures var d' := MoveItem(d, cat[i], Dest(cat, top, i)).value;
            && cat[i] !in d'.entries
            && Dest(cat, top, i) in d'.entries && d'.entries[Dest(cat, top, i)] == d.entries[cat[i]]
            && Dest(cat, top, i) !in cat[i + 1..]
            && IsDirectory(d', dir) && d'.locked == d.locked
            && (i + 1 < |cat| ==> Dest(cat, top, i + 1) !in d'.entries)
            && forall j :: i < j < |cat| ==> cat[j] in d'.entries && d'.entries[cat[j]] == d.entries[cat[j]]
  {
    var src, dst := cat[i], Dest(cat, top, i);
    assert dst == top || dst == cat[i - 1];
    assert IsChildOf(src, dir) && IsChildOf(dst, dir);
    assert Parent(dst) == dir;
    DestFacts(cat, top, i);
    MoveFrame(d, src, dst, cat, dir, i + 1);
  }

  lemma RenumberEnd(d: Disk, cat: seq<Path>, i: nat)
    requires i == |cat|
    ensures RenumberFrom(d, cat, i) == d
  {
  }

  /** The first rename of `RenumberChain` succeeds and is where the
      renumbering continues from. */
  lemma ChainMove(d: Disk, cat: seq<Path>, top: Path, dir: Path, i: nat)
    requires i < |cat| && Chain(cat, top, dir) && IsDirectory(d, dir)
    requires cat[i] in d.entries && Dest(cat, top, i) !in d.entries
    requires top !in d.locked && forall j :: 0 <= j < |cat| ==> cat[j] !in d.locked
    ensures CanMove(d, cat[i], Dest(cat, top, i))
    ensures RenumberFrom(d, cat, i) == RenumberFrom(MoveItem(d, cat[i], Dest(cat, top, i)).value, cat, i + 1)
  {
    var src, dst := cat[i], Dest(cat, top, i);
    assert dst == top || dst == cat[i - 1];
    assert IsChildOf(src, dir) && IsChildOf(dst, dir);
    assert Parent(dst) == dir;
    assert Link(cat, top, i);
    RenumberStep(d, cat, i);
  }

  /** Where the rename of `cat[i]` lands, relative to the rest of the catalogue. */
  lemma DestFacts(cat: seq<Path>, top: Path, i: nat)
    requires i < |cat| && Distinct(cat) && top !in cat
    ensures Dest(cat, top, i) !in cat[i + 1..]
    ensures i + 1 < |cat| ==> Dest(cat, top, i + 1) == cat[i]
    ensures forall j :: i < j < |cat| ==> cat[j] != cat[i] && cat[j] != Dest(cat, top, i)
  {
    forall j | i < j < |cat| ensures cat[j] != cat[i] && cat[j] != Dest(cat, top, i) {
    }
    if i + 1 < |cat| {
      var i' := i + 1;
      assert i' - 1 == i;
    }
  }

  /** A successful rename of `src` to `dst` keeps the directory `dir` and
      every entry of `cat` from index `i` on. */
  lemma MoveFrame(d: Disk, src: Path, dst: Path, cat: seq<Path>, dir: Path, i: nat)
    requires CanMove(d, src, dst) && IsDirectory(d, dir) && dir != src && dir != dst
    requires forall j :: i <= j < |cat| ==> cat[j] in d.entries && cat[j] != src && cat[j] != dst
    ensures var d' := MoveItem(d, src, dst).value;
            && IsDirectory(d', dir) && d'.locked == d.locked
            && forall j :: i <= j < |cat| ==> cat[j] in d'.entries && d'.entries[cat[j]] == d.entries[cat[j]]
  {
  }

  /** Archives `.1` to `.n` of `target`. */
  ghost function NumberedSet(target: Path, n: nat): set<Path> {
    set g | 1 <= g <= n :: Numbered(target, g)
  }

  /** `.n, .n-1, ..., .1`. */
  function NumberedOldestFirst(target: Path, n: nat): (r: seq<Path>)
    ensures |r| == n && forall j :: 0 <= j < n ==> r[j] == Numbered(target, n - j)
  {
    seq(n, j requires 0 <= j < n => Numbered(target, n - j))
  }

  /** When the archives are exactly `.1` to `.n`, each older than the one
      numbered before it, the catalogue lists them `.n` first. */
  lemma NumberedCatalogue(d: Disk, target: Path, n: nat)
    requires NamedTarget(target) && IsDirectory(d, Parent(target))
    requires Kept(d, Parent(target), IsArchiveOf(target)) == NumberedSet(target, n)
    requires forall a, b :: 1 <= a < b <= n ==> ModificationTime(d, Numbered(target, b)) < ModificationTime(d, Numbered(target, a))
    ensures ArchivesOf(d, target) == NumberedOldestFirst(target, n)
  {
    var r := NumberedOldestFirst(target, n);
    var s := Kept(d, Parent(target), IsArchiveOf(target));
    CatalogueIsOldestFirst(d, Parent(target), IsArchiveOf(target));
    NumberedAscending(d, target, n);
    NumberedMembers(target, n);
    AgeOrderTotal(d);
    SortedByUnique(s, AgeOrder(d), r);
  }

  lemma NumberedAscending(d: Disk, target: Path, n: nat)
    requires NamedTarget(target)
    requires forall a, b :: 1 <= a < b <= n ==> ModificationTime(d, Numbered(target, b)) < ModificationTime(d, Numbered(target, a))
    ensures Distinct(NumberedOldestFirst(target, n)) && Ascending(NumberedOldestFirst(target, n), AgeOrder(d))
  {
    var r := NumberedOldestFirst(target, n);
    forall i, j | 0 <= i < j < n ensures r[i] != r[j] && AgeOrder(d)(r[i], r[j]) {
      NumberedFacts(target, n - i, n - j);
    }
  }

  lemma NumberedMembers(target: Path, n: nat)
    ensures forall x :: x in NumberedOldestFirst(target, n) <==> x in NumberedSet(target, n)
  {
    var r := NumberedOldestFirst(target, n);
    forall x ensures x in r <==> x in NumberedSet(target, n) {
      if x in NumberedSet(target, n) {
        var g :| 1 <= g <= n && x == Numbered(target, g);
        assert r[n - g] == x;
      }
    }
  }

  // ----------------------------------------------------------------- archive

  /** The archive name of `archiveTargetFiles`. */
  function ArchiveName(suffix: SuffixExtension, target: Path, stamp: string, uuid: string): Path {
    match suffix
    case Numbering => AppendingExtension(target, "1")
    case DateUuid => AppendingExtension(target, stamp + "_" + uuid)
  }

  /** The archive name is archive `.1` of the target, or carries the stamp
      and UUID; either way the next catalogue lists it. */
  lemma ArchiveNameIsCatalogued(suffix: SuffixExtension, target: Path, stamp: string, uuid: string)
    requires NamedTarget(target) && '.' !in stamp && '.' !in uuid
    ensures suffix == Numbering ==> ArchiveName(suffix, target, stamp, uuid) == Numbered(target, 1)
    ensures var a := ArchiveName(suffix, target, stamp, uuid);
            && a != target && DeletingExtension(a) == target && IsChildOf(a, Parent(target))
  {
    var ext := if suffix == Numbering then "1" else stamp + "_" + uuid;
    assert ArchiveName(suffix, target, stamp, uuid) == AppendingExtension(target, ext);
    assert Decimal(1) == "1";
    ExtensionRoundTrip(target, ext);
    ExtensionKeepsDirectory(target, ext);
    AppendingExtensionInjective(target, ext, ext);
  }

  /** The disk and the delegate calls after one step of a rotation. */
  datatype Outcome = Outcome(disk: Disk, events: seq<Event>)

  /** `archiveTargetFiles` with a computed archive name: the target is moved,
      and the delegate hears of it only when the move succeeded. */
  function ArchiveTarget(d: Disk, target: Path, archive: Path): (r: Outcome)
    ensures r.events == if CanMove(d, target, archive) then [ArchivedFile(target, archive)] else []
    ensures CanMove(d, target, archive) ==> target !in r.disk.entries && archive in r.disk.entries && r.disk.entries[archive] == d.entries[target]
    ensures CanMove(d, target, archive) ==>
              forall q :: q in d.entries && q != target ==> q in r.disk.entries && r.disk.entries[q] == d.entries[q]
    ensures !CanMove(d, target, archive) ==> r.disk == d
    ensures r.disk.locked == d.locked
    ensures forall q :: q in r.disk.entries && q !in d.entries ==> q == archive
  {
    match MoveItem(d, target, archive)
    case None => Outcome(d, [])
    case Some(d') => Outcome(d', [ArchivedFile(target, archive)])
  }

  /** Numbering rotation from archives `.1` to `.n` (each older than the one
      numbered before it): the old archives become `.2` to `.(n + 1)`, the
      target becomes `.1`, and nothing is lost, so the archives are numbered
      `1..n+1` without a gap. */
  lemma NumberingRotationIsGapFree(d: Disk, target: Path, n: nat, stamp: string, uuid: string)
    requires NamedTarget(target) && IsDirectory(d, Parent(target))
    requires Kept(d, Parent(target), IsArchiveOf(target)) == NumberedSet(target, n)
    requires forall a, b :: 1 <= a < b <= n ==> ModificationTime(d, Numbered(target, b)) < ModificationTime(d, Numbered(target, a))
    requires target in d.entries && target !in d.locked
    requires forall g :: 1 <= g <= n + 1 ==> Numbered(target, g) !in d.locked
    ensures var a := ArchiveTarget(OldArchivesRotated(d, target, Numbering), target, ArchiveName(Numbering, target, stamp, uuid));
            && a.events == [ArchivedFile(target, Numbered(target, 1))]
            && target !in a.disk.entries
            && Numbered(target, 1) in a.disk.entries && a.disk.entries[Numbered(target, 1)] == d.entries[target]
    ensures var a := ArchiveTarget(OldArchivesRotated(d, target, Numbering), target, ArchiveName(Numbering, target, stamp, uuid));
            forall g :: 1 <= g <= n ==> MovedUp(a.disk, d, target, g)
    ensures var a := ArchiveTarget(OldArchivesRotated(d, target, Numbering), target, ArchiveName(Numbering, target, stamp, uuid));
            Kept(a.disk, Parent(target), IsArchiveOf(target)) == NumberedSet(target, n + 1)
  {
    NumberedCatalogue(d, target, n);
    NumberedPresent(d, target, n);
    NumberingArchiveName(target, stamp, uuid);
    ShiftAndArchive(d, target, n, ArchivesOf(d, target));
    var d1 := OldArchivesRotated(d, target, Numbering);
    OldArchivesKeepCount(d, target, Numbering);
    NumberedNamesArchive(target, 1);
    ArchiveTargetCount(d1, target, Numbered(target, 1));
    NumberedSetSize(target, n);
    GapFreeSet(d, ArchiveTarget(d1, target, Numbered(target, 1)).disk, target, n);
  }

  /** Archive `.g` of `target` is an archive name of it. */
  lemma NumberedNamesArchive(target: Path, g: nat)
    requires NamedTarget(target)
    ensures NamesArchive(Numbered(target, g), target)
  {
    NumberedFacts(target, g, g);
    ChildOfParent(Numbered(target, g), target);
  }

  /** There are `n` archives `.1` to `.n`. */
  lemma {:induction false} NumberedSetSize(target: Path, n: nat)
    requires NamedTarget(target)
    ensures |NumberedSet(target, n)| == n
  {
    if n > 0 {
      NumberedSetSize(target, n - 1);
      NextNumberedFree(target, n - 1);
      assert NumberedSet(target, n) == NumberedSet(target, n - 1) + {Numbered(target, n)};
    }
  }

  /** One more archive than `.1` to `.n`, among them `.1` to `.(n + 1)`:
      exactly those. */
  lemma GapFreeSet(d: Disk, a: Disk, target: Path, n: nat)
    requires NamedTarget(target)
    requires Kept(d, Parent(target), IsArchiveOf(target)) == NumberedSet(target, n) && |NumberedSet(target, n)| == n
    requires ArchiveCount(a, target) == ArchiveCount(d, target) + 1
    requires Numbered(target, 1) in a.entries && forall g :: 1 <= g <= n ==> MovedUp(a, d, target, g)
    ensures Kept(a, Parent(target), IsArchiveOf(target)) == NumberedSet(target, n + 1)
  {
    var now := Kept(a, Parent(target), IsArchiveOf(target));
    var want := NumberedSet(target, n + 1);
    forall x | x in want ensures x in now {
      var g :| 1 <= g <= n + 1 && x == Numbered(target, g);
      NumberedNamesArchive(target, g);
      if g > 1 {
        assert MovedUp(a, d, target, g - 1);
      }
    }
    NumberedSetSize(target, n + 1);
    SubsetOfSameSize(want, now);
  }

  lemma SubsetOfSameSize<T>(a: set<T>, b: set<T>)
    requires a <= b && |a| == |b|
    ensures a == b
  {
    assert b == a + (b - a);
    assert |b - a| == 0;
  }

  lemma NumberingArchiveName(target: Path, stamp: string, uuid: string)
    ensures ArchiveName(Numbering, target, stamp, uuid) == Numbered(target, 1)
  {
    assert Decimal(1) == "1";
  }

  /** The two steps of a numbering rotation over `.n, ..., .1`. */
  lemma ShiftAndArchive(d: Disk, target: Path, n: nat, cat: seq<Path>)
    requires NamedTarget(target) && IsDirectory(d, Parent(target))
    requires cat == NumberedOldestFirst(target, n)
    requires forall g :: 1 <= g <= n ==> Numbered(target, g) in d.entries
    requires Numbered(target, n + 1) !in d.entries
    requires target in d.entries && target !in d.locked
    requires forall g :: 1 <= g <= n + 1 ==> Numbered(target, g) !in d.locked
    ensures var a := ArchiveTarget(RenumberFrom(d, cat, 0), target, Numbered(target, 1));
            && a.events == [ArchivedFile(target, Numbered(target, 1))]
            && target !in a.disk.entries
            && Numbered(target, 1) in a.disk.entries && a.disk.entries[Numbered(target, 1)] == d.entries[target]
    ensures var a := ArchiveTarget(RenumberFrom(d, cat, 0), target, Numbered(target, 1));
            forall g :: 1 <= g <= n ==> MovedUp(a.disk, d, target, g)
  {
    RenumberKeepsTarget(d, target, cat, n);
    NumberedShift(d, target, n, cat);
    ArchiveAfterShift(d, RenumberFrom(d, cat, 0), target, n);
  }

  /** Archiving the target once `.1` to `.n` have moved up by one. */
  lemma ArchiveAfterShift(d: Disk, d1: Disk, target: Path, n: nat)
    requires NamedTarget(target) && IsDirectory(d1, Parent(target)) && d1.locked == d.locked
    requires target in d.entries && target !in d.locked && Numbered(target, 1) !in d.locked
    requires target in d1.entries && d1.entries[target] == d.entries[target]
    requires Numbered(target, 1) !in d1.entries
    requires forall g :: 1 <= g <= n ==> MovedUp(d1, d, target, g)
    ensures var a := ArchiveTarget(d1, target, Numbered(target, 1));
            && a.events == [ArchivedFile(target, Numbered(target, 1))]
            && target !in a.disk.entries
            && Numbered(target, 1) in a.disk.entries && a.disk.entries[Numbered(target, 1)] == d.entries[target]
    ensures var a := ArchiveTarget(d1, target, Numbered(target, 1));
            forall g :: 1 <= g <= n ==> MovedUp(a.disk, d, target, g)
  {
    NumberedFacts(target, 1, 1);
    assert CanMove(d1, target, Numbered(target, 1));
    var a := ArchiveTarget(d1, target, Numbered(target, 1));
    forall g | 1 <= g <= n ensures MovedUp(a.disk, d, target, g) {
      assert MovedUp(d1, d, target, g);
      NumberedFacts(target, g + 1, 1);
    }
  }

  /** The renumbering of `.n, ..., .1` when `.(n + 1)` is free: each moves
      up by one and `.1` is left free. */
  lemma NumberedShift(d: Disk, target: Path, n: nat, cat: seq<Path>)
    requires NamedTarget(target) && IsDirectory(d, Parent(target))
    requires cat == NumberedOldestFirst(target, n)
    requires forall g :: 1 <= g <= n ==> Numbered(target, g) in d.entries
    requires Numbered(target, n + 1) !in d.entries
    requires forall g :: 1 <= g <= n + 1 ==> Numbered(target, g) !in d.locked
    ensures var r := RenumberFrom(d, cat, 0);
            && Numbered(target, 1) !in r.entries
            && forall g :: 1 <= g <= n ==> MovedUp(r, d, target, g)
  {
    if n == 0 {
      RenumberEnd(d, cat, 0);
    } else {
      var top := Numbered(target, n + 1);
      NumberedChain(target, n, cat);
      NumberedChainReady(d, target, n, cat);
      RenumberChain(d, cat, top, Parent(target), 0);
      ChainDoneMovedUp(RenumberFrom(d, cat, 0), d, target, n, cat);
    }
  }

  lemma NumberedChainReady(d: Disk, target: Path, n: nat, cat: seq<Path>)
    requires n > 0 && cat == NumberedOldestFirst(target, n)
    requires forall g :: 1 <= g <= n ==> Numbered(target, g) in d.entries
    requires Numbered(target, n + 1) !in d.entries
    requires forall g :: 1 <= g <= n + 1 ==> Numbered(target, g) !in d.locked
    ensures Dest(cat, Numbered(target, n + 1), 0) !in d.entries && Numbered(target, n + 1) !in d.locked
    ensures forall j :: 0 <= j < |cat| ==> cat[j] in d.entries && cat[j] !in d.locked
  {
    forall j | 0 <= j < |cat| ensures cat[j] in d.entries && cat[j] !in d.locked {
      assert cat[j] == Numbered(target, n - j);
    }
  }

  /** A finished chain over `.n, ..., .1` has moved each archive up by one. */
  lemma ChainDoneMovedUp(r: Disk, d: Disk, target: Path, n: nat, cat: seq<Path>)
    requires n > 0 && cat == NumberedOldestFirst(target, n)
    requires ChainDone(r, d, cat, Numbered(target, n + 1), 0)
    ensures Numbered(target, 1) !in r.entries
    ensures forall g :: 1 <= g <= n ==> MovedUp(r, d, target, g)
  {
    var top := Numbered(target, n + 1);
    assert cat[n - 1] == Numbered(target, 1);
    forall g | 1 <= g <= n ensures MovedUp(r, d, target, g) {
      var j := n - g;
      assert Landed(r, d, cat, top, j);
      assert cat[j] == Numbered(target, g);
      assert Dest(cat, top, j) == Numbered(target, g + 1);
    }
  }

  /** `.n, ..., .1` renames down a chain ending in `.(n + 1)`. */
  lemma NumberedChain(target: Path, n: nat, cat: seq<Path>)
    requires NamedTarget(target) && cat == NumberedOldestFirst(target, n)
    ensures Chain(cat, Numbered(target, n + 1), Parent(target))
  {
    var top := Numbered(target, n + 1);
    forall j | 0 <= j < n ensures Link(cat, top, j) {
      ChainLink(target, n, cat, j);
    }
    forall j | 0 <= j < n ensures IsChildOf(cat[j], Parent(target)) && cat[j] != top {
      ChainLink(target, n, cat, j);
    }
    forall i, j | 0 <= i < j < n ensures cat[i] != cat[j] {
      NumberedInjective(target, n - i, n - j);
    }
    NumberedFacts(target, n + 1, n + 1);
    ChildOfParent(top, target);
  }

  lemma ChainLink(target: Path, n: nat, cat: seq<Path>, j: nat)
    requires NamedTarget(target) && cat == NumberedOldestFirst(target, n) && j < n
    ensures IsChildOf(cat[j], Parent(target)) && cat[j] != Numbered(target, n + 1)
    ensures Link(cat, Numbered(target, n + 1), j)
  {
    var g := n - j;
    var top := Numbered(target, n + 1);
    assert cat[j] == Numbered(target, g);
    if j > 0 {
      assert cat[j - 1] == Numbered(target, g + 1);
    }
    assert Dest(cat, top, j) == Numbered(target, g + 1);
    NumberedNeighbour(target, g, n);
  }

  /** Generation `g` renumbers to generation `g + 1`, a different entry
      beside the target from `.(n + 1)` when `g <= n`. */
  lemma NumberedNeighbour(target: Path, g: nat, n: nat)
    requires NamedTarget(target) && 1 <= g <= n
    ensures Generation(Numbered(target, g), g + 1) == Numbered(target, g + 1)
    ensures IsChildOf(Numbered(target, g), Parent(target)) && Numbered(target, g) != Numbered(target, n + 1)
  {
    NumberedFacts(target, g, g + 1);
    NumberedInjective(target, g, n + 1);
    ChildOfParent(Numbered(target, g), target);
  }

  /** A path with the target's directory and depth is an entry beside it. */
  lemma ChildOfParent(p: Path, target: Path)
    requires target != [] && |p| == |target| && Parent(p) == Parent(target)
    ensures IsChildOf(p, Parent(target))
  {
  }

  /** When the archives of `target` are exactly `.1` to `.n`, those exist
      and `.(n + 1)` does not. */
  lemma NumberedPresent(d: Disk, target: Path, n: nat)
    requires NamedTarget(target)
    requires Kept(d, Parent(target), IsArchiveOf(target)) == NumberedSet(target, n)
    ensures forall g :: 1 <= g <= n ==> Numbered(target, g) in d.entries
    ensures Numbered(target, n + 1) !in d.entries
  {
    forall g | 1 <= g <= n ensures Numbered(target, g) in d.entries {
      assert Numbered(target, g) in NumberedSet(target, n);
    }
    NextNumberedFree(target, n);
    NextNumberedIsArchive(target, n);
    NotKeptAbsent(d, target, Numbered(target, n + 1));
  }

  lemma NextNumberedFree(target: Path, n: nat)
    requires NamedTarget(target)
    ensures Numbered(target, n + 1) !in NumberedSet(target, n)
  {
    forall g | 1 <= g <= n ensures Numbered(target, g) != Numbered(target, n + 1) {
      NumberedInjective(target, g, n + 1);
    }
  }

  lemma NextNumberedIsArchive(target: Path, n: nat)
    requires NamedTarget(target)
    ensures IsChildOf(Numbered(target, n + 1), Parent(target))
    ensures Numbered(target, n + 1) != target && DeletingExtension(Numbered(target, n + 1)) == target
  {
    var x := Numbered(target, n + 1);
    NumberedFacts(target, n + 1, n + 1);
    assert x[..|Parent(target)|] == Parent(x);
  }

  /** A child of the target's directory that names an archive of it, but is
      not among its archives, is absent. */
  lemma NotKeptAbsent(d: Disk, target: Path, x: Path)
    requires x !in Kept(d, Parent(target), IsArchiveOf(target)) && IsChildOf(x, Parent(target))
    requires x != target && DeletingExtension(x) == target
    ensures x !in d.entries
  {
  }

  /** Renumbering `.n, ..., .1` leaves the target and its directory alone. */
  lemma RenumberKeepsTarget(d: Disk, target: Path, cat: seq<Path>, n: nat)
    requires NamedTarget(target) && cat == NumberedOldestFirst(target, n)
    ensures var d1 := RenumberFrom(d, cat, 0);
            && (target in d.entries ==> target in d1.entries && d1.entries[target] == d.entries[target])
            && (IsDirectory(d, Parent(target)) ==> IsDirectory(d1, Parent(target)))
  {
    RenumberNeverClobbers(d, cat, 0);
    assert cat[0..] == cat;
    forall j | 0 <= j < n ensures cat[j] != target && cat[j] != Parent(target) {
      NumberedFacts(target, n - j, n - j);
    }
  }

  // ---------------------------------------------------------------- rotation

  /** The delegate calls of `removeArchives`, one per removed archive. */
  function RemovalEvents(removed: seq<Path>): (evs: seq<Event>)
    ensures |evs| == |removed| && forall j :: 0 <= j < |removed| ==> evs[j] == RemovedArchive(removed[j])
  {
    seq(|removed|, j requires 0 <= j < |removed| => RemovedArchive(removed[j]))
  }

  /** The guard of `rotateFiles`: the size can be read and exceeds the bound. */
  predicate RotationDue(d: Disk, target: Path, maxFileSize: nat) {
    FileSize(d, target).Some? && FileSize(d, target).value > maxFileSize
  }

  /** The disk and delegate calls after `rotateFiles`, with the error of the
      final `openFile`, which is printed and dropped. */
  datatype Rotation = Rotation(disk: Disk, events: seq<Event>, reopenError: Option<FileError>)

  /** `rotateFiles`: nothing unless rotation is due; otherwise rotate the old
      archives, archive the target, prune, and reopen, in this order. */
  function Rotate(d: Disk, target: Path, config: RotationConfig, mode: nat, now: int, stamp: string, uuid: string): (r: Rotation)
    ensures !RotationDue(d, target, config.maxFileSize) ==> r == Rotation(d, [], None)
  {
    if !RotationDue(d, target, config.maxFileSize) then Rotation(d, [], None)
    else
      var archived := ArchiveTarget(OldArchivesRotated(d, target, config.suffixExtension), target,
                                    ArchiveName(config.suffixExtension, target, stamp, uuid));
      var pruned := Pruned(archived.disk, ArchivesOf(archived.disk, target), config.maxArchives);
      var reopened := OpenFile(pruned.disk, target, mode, now);
      Rotation(reopened.disk, archived.events + RemovalEvents(pruned.removed), reopened.error)
  }

  /** A name the catalogue of `target` lists whenever it exists: an entry
      beside the target, other than the target, that gives the target once
      its last extension is deleted. */
  predicate NamesArchive(p: Path, target: Path) {
    IsChildOf(p, Parent(target)) && p != target && DeletingExtension(p) == target
  }

  /** No archive name of `target` is locked. */
  ghost predicate ArchivesUnlocked(d: Disk, target: Path) {
    forall p :: NamesArchive(p, target) ==> p !in d.locked
  }

  /** The number of archives of `target` on `d`. */
  ghost function ArchiveCount(d: Disk, target: Path): nat {
    |Kept(d, Parent(target), IsArchiveOf(target))|
  }

  /** The next generation of an archive of `target` is another archive name
      of `target`. */
  lemma GenerationNamesArchive(target: Path, p: Path, m: nat)
    requires NamedTarget(target) && NamesArchive(p, target)
    ensures Generation(p, m) == Numbered(target, m) && NamesArchive(Numbered(target, m), target)
  {
    NumberedFacts(target, m, m);
    ChildOfParent(Numbered(target, m), target);
  }

  /** Renumbering moves archives onto free archive names only, so the number
      of archives does not change. */
  lemma {:induction false} RenumberKeepsCount(d: Disk, target: Path, cat: seq<Path>, i: nat)
    requires NamedTarget(target) && i <= |cat|
    requires forall j :: i <= j < |cat| ==> NamesArchive(cat[j], target)
    ensures ArchiveCount(RenumberFrom(d, cat, i), target) == ArchiveCount(d, target)
    decreases |cat| - i
  {
    if i < |cat| {
      var m := |cat| + 1 - i;
      var dst := Generation(cat[i], m);
      RenumberStep(d, cat, i);
      if dst in d.entries {
        RenumberKeepsCount(d, target, cat, i + 1);
      } else if CanMove(d, cat[i], dst) {
        GenerationNamesArchive(target, cat[i], m);
        MoveKeepsCount(d, cat[i], dst, target);
        RenumberKeepsCount(MoveItem(d, cat[i], dst).value, target, cat, i + 1);
      }
    }
  }

  /** Moving one archive onto a free archive name keeps the number of
      archives. */
  lemma MoveKeepsCount(d: Disk, src: Path, dst: Path, target: Path)
    requires CanMove(d, src, dst) && NamesArchive(src, target) && NamesArchive(dst, target)
    ensures ArchiveCount(MoveItem(d, src, dst).value, target) == ArchiveCount(d, target)
  {
    var before := Kept(d, Parent(target), IsArchiveOf(target));
    MoveKept(d, src, dst, Parent(target), IsArchiveOf(target));
    assert src in before && dst !in before;
    assert |before - {src}| == |before| - 1;
  }

  /** The renumbering of a rotation keeps the number of archives, the locks
      and the target's directory. */
  lemma OldArchivesKeepCount(d: Disk, target: Path, suffix: SuffixExtension)
    requires NamedTarget(target)
    ensures var d1 := OldArchivesRotated(d, target, suffix);
            && ArchiveCount(d1, target) == ArchiveCount(d, target)
            && d1.locked == d.locked
            && (IsDirectory(d, Parent(target)) ==> IsDirectory(d1, Parent(target)))
  {
    if suffix == Numbering {
      var cat := ArchivesOf(d, target);
      forall j | 0 <= j < |cat| ensures NamesArchive(cat[j], target) && cat[j] != Parent(target) {
        assert cat[j] in cat;
      }
      RenumberKeepsCount(d, target, cat, 0);
      RenumberNeverClobbers(d, cat, 0);
      assert cat[0..] == cat;
    }
  }

  /** Archiving the target adds one archive when the move succeeds. */
  lemma ArchiveTargetCount(d: Disk, target: Path, archive: Path)
    requires NamesArchive(archive, target)
    ensures var a := ArchiveTarget(d, target, archive);
            && ArchiveCount(a.disk, target) == ArchiveCount(d, target) + (if CanMove(d, target, archive) then 1 else 0)
            && (IsDirectory(d, Parent(target)) ==> IsDirectory(a.disk, Parent(target)))
  {
    if CanMove(d, target, archive) {
      var before := Kept(d, Parent(target), IsArchiveOf(target));
      MoveKept(d, target, archive, Parent(target), IsArchiveOf(target));
      assert target !in before && archive !in before;
      assert Kept(ArchiveTarget(d, target, archive).disk, Parent(target), IsArchiveOf(target)) == before + {archive};
    }
  }

  /** The disk and the calls after the first two steps of a rotation:
      renumbering and archiving. */
  function Archived(d: Disk, target: Path, config: RotationConfig, stamp: string, uuid: string): Outcome {
    ArchiveTarget(OldArchivesRotated(d, target, config.suffixExtension), target,
                  ArchiveName(config.suffixExtension, target, stamp, uuid))
  }

  /** A rotation that is due is the prune and the reopening after those two
      steps. */
  lemma RotateUnfolds(d: Disk, target: Path, config: RotationConfig, mode: nat, now: int, stamp: string, uuid: string)
    requires RotationDue(d, target, config.maxFileSize)
    ensures var a := Archived(d, target, config, stamp, uuid);
            var pruned := Pruned(a.disk, ArchivesOf(a.disk, target), config.maxArchives);
            var r := Rotate(d, target, config, mode, now, stamp, uuid);
            && r.disk == OpenFile(pruned.disk, target, mode, now).disk
            && r.events == a.events + RemovalEvents(pruned.removed)
  {
  }

  /** After renumbering and archiving there is one more archive when the
      target was moved, and the directory and the locks are as they were;
      the calls so far are the archive call of the move, if any. */
  lemma ArchivedStage(d: Disk, target: Path, config: RotationConfig, stamp: string, uuid: string)
    requires NamedTarget(target) && '.' !in stamp && '.' !in uuid
    ensures var a := Archived(d, target, config, stamp, uuid);
            var archive := ArchiveName(config.suffixExtension, target, stamp, uuid);
            var moved := a.events != [];
            && (a.events == [] || a.events == [ArchivedFile(target, archive)])
            && ArchiveCount(a.disk, target) == ArchiveCount(d, target) + (if moved then 1 else 0)
            && a.disk.locked == d.locked
            && (IsDirectory(d, Parent(target)) ==> IsDirectory(a.disk, Parent(target)))
            && (moved && target in d.entries ==> archive in a.disk.entries && a.disk.entries[archive] == d.entries[target])
  {
    var archive := ArchiveName(config.suffixExtension, target, stamp, uuid);
    ArchiveNameIsCatalogued(config.suffixExtension, target, stamp, uuid);
    var d1 := OldArchivesRotated(d, target, config.suffixExtension);
    OldArchivesKeepCount(d, target, config.suffixExtension);
    if target in d.entries {
      OldArchivesKeepTarget(d, target, config.suffixExtension);
    }
    ArchiveTargetCount(d1, target, archive);
  }

  /** With no archive name locked, pruning leaves `min(count, maxArchives)`
      archives, and reopening the target adds none. */
  lemma PruneAndReopenCount(d: Disk, target: Path, maxArchives: nat, mode: nat, now: int)
    requires IsDirectory(d, Parent(target)) && ArchivesUnlocked(d, target)
    ensures var cat := ArchivesOf(d, target);
            var pruned := Pruned(d, cat, maxArchives);
            |ArchivesOf(OpenFile(pruned.disk, target, mode, now).disk, target)| ==
              if |cat| <= maxArchives then |cat| else maxArchives
  {
    var dir, keep := Parent(target), IsArchiveOf(target);
    var cat := ArchivesOf(d, target);
    forall j | 0 <= j < Excess(|cat|, maxArchives) ensures cat[j] !in d.locked {
      assert cat[j] in cat;
    }
    PruneBoundsArchives(d, dir, keep, maxArchives);
    var pruned := Pruned(d, cat, maxArchives);
    PruneSurvivors(d, target, maxArchives);
    ReopenKeepsArchives(pruned.disk, target, mode, now);
  }

  /** Reopening the target makes no archive and removes none. */
  lemma ReopenKeepsArchives(d: Disk, target: Path, mode: nat, now: int)
    requires IsDirectory(d, Parent(target))
    ensures |ArchivesOf(OpenFile(d, target, mode, now).disk, target)| == |ArchivesOf(d, target)|
  {
    OpenFileAddsNoSibling(d, target, mode, now);
    GrowthKeepsArchives(d, OpenFile(d, target, mode, now).disk, target);
    CatalogueSize(d, Parent(target), IsArchiveOf(target));
    CatalogueSize(OpenFile(d, target, mode, now).disk, Parent(target), IsArchiveOf(target));
  }

  /** A step that keeps every entry and adds no entry beside the target but
      the target itself keeps the archives. */
  lemma GrowthKeepsArchives(d: Disk, d': Disk, target: Path)
    requires IsDirectory(d, Parent(target))
    requires forall q :: q in d.entries ==> q in d'.entries && d'.entries[q] == d.entries[q]
    requires forall q :: q in d'.entries && q !in d.entries && IsChildOf(q, Parent(target)) ==> q == target
    ensures IsDirectory(d', Parent(target))
    ensures Kept(d', Parent(target), IsArchiveOf(target)) == Kept(d, Parent(target), IsArchiveOf(target))
  {
    var dir, keep := Parent(target), IsArchiveOf(target);
    assert IsDirectory(d', dir);
    forall q | q in d'.entries && q !in d.entries && IsChildOf(q, dir) ensures !keep(q, d'.entries[q]) {
    }
    KeptGrows(d, d', dir, keep, {});
  }

  /** With no archive name locked, a rotation that is due leaves
      `min(n + made, maxArchives)` archives, where `n` were there before and
      `made` is one when the target was archived: the prune runs after the
      archive is made and counts it, and reopening the target makes no
      archive. */
  lemma RotationBoundsArchives(d: Disk, target: Path, config: RotationConfig, mode: nat, now: int, stamp: string, uuid: string)
    requires RotationDue(d, target, config.maxFileSize)
    requires NamedTarget(target) && IsDirectory(d, Parent(target)) && '.' !in stamp && '.' !in uuid
    requires ArchivesUnlocked(d, target)
    ensures var r := Rotate(d, target, config, mode, now, stamp, uuid);
            var made := if ArchivedFile(target, ArchiveName(config.suffixExtension, target, stamp, uuid)) in r.events then 1 else 0;
            var count := |ArchivesOf(d, target)| + made;
            |ArchivesOf(r.disk, target)| == if count <= config.maxArchives then count else config.maxArchives
  {
    var a := Archived(d, target, config, stamp, uuid);
    var r := Rotate(d, target, config, mode, now, stamp, uuid);
    RotateUnfolds(d, target, config, mode, now, stamp, uuid);
    ArchivedStage(d, target, config, stamp, uuid);
    PruneAndReopenCount(a.disk, target, config.maxArchives, mode, now);
    var pruned := Pruned(a.disk, ArchivesOf(a.disk, target), config.maxArchives);
    CatalogueSize(d, Parent(target), IsArchiveOf(target));
    CatalogueSize(a.disk, Parent(target), IsArchiveOf(target));
    BoundOfStages(|ArchivesOf(d, target)|, |ArchivesOf(a.disk, target)|, a.events, pruned.removed, target,
                  ArchiveName(config.suffixExtension, target, stamp, uuid), |ArchivesOf(r.disk, target)|, config.maxArchives);
  }

  /** The count after a rotation from the counts of its stages. */
  lemma BoundOfStages(before: nat, archived: nat, moved: seq<Event>, removed: seq<Path>, target: Path, archive: Path,
                      after: nat, maxArchives: nat)
    requires moved == [] || moved == [ArchivedFile(target, archive)]
    requires archived == before + (if moved != [] then 1 else 0)
    requires after == if archived <= maxArchives then archived else maxArchives
    ensures var made := if ArchivedFile(target, archive) in moved + RemovalEvents(removed) then 1 else 0;
            after == if before + made <= maxArchives then before + made else maxArchives
  {
    ArchiveEventFromMove(moved, removed, target, archive);
  }

  /** The prune of a rotation keeps the target's directory and removes
      catalogued archives only, each with what lies below it. */
  lemma PruneSurvivors(d: Disk, target: Path, maxArchives: nat)
    requires IsDirectory(d, Parent(target))
    ensures var r := Pruned(d, ArchivesOf(d, target), maxArchives);
            && IsDirectory(r.disk, Parent(target))
            && (forall p :: p in r.removed ==> NamesArchive(p, target) && p !in r.disk.entries)
            && (forall q :: q in d.entries && q !in r.removed && IsChildOf(q, Parent(target)) ==>
                  q in r.disk.entries && r.disk.entries[q] == d.entries[q])
  {
    var cat := ArchivesOf(d, target);
    var r := Pruned(d, cat, maxArchives);
    PruneShape(d, cat, maxArchives);
    PrunedAreArchives(cat, r.removed, target);
    KeptAfterRemoval(d, Parent(target), IsArchiveOf(target), r.removed, r.disk);
    WithoutSiblings(d.entries, r.removed, Parent(target));
  }

  lemma PrunedAreArchives(cat: seq<Path>, removed: seq<Path>, target: Path)
    requires forall p :: p in cat ==> NamesArchive(p, target)
    requires |removed| <= |cat| && removed == cat[..|removed|]
    ensures forall p :: p in removed ==> NamesArchive(p, target)
  {
    forall p | p in removed ensures p in cat {
      var j :| 0 <= j < |removed| && removed[j] == p;
      assert cat[j] == p;
    }
  }

  /** In the calls of a rotation, an archive call can only come from the
      move, which is first. */
  lemma ArchiveEventFromMove(moved: seq<Event>, removed: seq<Path>, target: Path, archive: Path)
    requires moved == [] || moved == [ArchivedFile(target, archive)]
    ensures ArchivedFile(target, archive) in moved + RemovalEvents(removed) <==> moved != []
    ensures forall k :: 0 <= k < |moved + RemovalEvents(removed)| && (moved + RemovalEvents(removed))[k].ArchivedFile? ==>
              k == 0 && moved != []
  {
    var rem := RemovalEvents(removed);
    assert forall k :: 0 <= k < |rem| ==> rem[k].RemovedArchive?;
    assert ArchivedFile(target, archive) !in rem;
    assert forall k :: |moved| <= k < |moved + rem| ==> (moved + rem)[k] == rem[k - |moved|];
  }

  /** What the delegate hears from a rotation that is due, and what it can
      rely on: the archive call, if any, comes first and names the archive
      made from the target; every later call is a removal of an archive of
      the target, which is gone afterwards; and an archive that was made and
      not removed holds what the target held. */
  lemma RotationReport(d: Disk, target: Path, config: RotationConfig, mode: nat, now: int, stamp: string, uuid: string)
    requires RotationDue(d, target, config.maxFileSize)
    requires NamedTarget(target) && IsDirectory(d, Parent(target)) && '.' !in stamp && '.' !in uuid
    ensures var r := Rotate(d, target, config, mode, now, stamp, uuid);
            var a := ArchiveName(config.suffixExtension, target, stamp, uuid);
            && (forall k :: 0 <= k < |r.events| && r.events[k].ArchivedFile? ==> k == 0 && r.events[k] == ArchivedFile(target, a))
            && (forall p :: RemovedArchive(p) in r.events ==> NamesArchive(p, target) && p !in r.disk.entries)
            && (ArchivedFile(target, a) in r.events && RemovedArchive(a) !in r.events ==>
                  a in r.disk.entries && r.disk.entries[a] == d.entries[target])
  {
    var archive := ArchiveName(config.suffixExtension, target, stamp, uuid);
    var a := Archived(d, target, config, stamp, uuid);
    RotateUnfolds(d, target, config, mode, now, stamp, uuid);
    ArchivedStage(d, target, config, stamp, uuid);
    ArchiveNameIsCatalogued(config.suffixExtension, target, stamp, uuid);
    var pruned := Pruned(a.disk, ArchivesOf(a.disk, target), config.maxArchives);
    PruneAndReopenEntries(a.disk, target, config.maxArchives, mode, now);
    ReportOfStages(d.entries[target], target, archive, a.events, a.disk, pruned.removed,
                   OpenFile(pruned.disk, target, mode, now).disk);
  }

  /** The report of a rotation from what its archiving and its prune did. */
  lemma ReportOfStages(held: Entry, target: Path, archive: Path, moved: seq<Event>, a: Disk, removed: seq<Path>, r: Disk)
    requires moved == [] || moved == [ArchivedFile(target, archive)]
    requires moved != [] ==> archive in a.entries && a.entries[archive] == held
    requires archive != target && IsChildOf(archive, Parent(target))
    requires forall p :: p in removed ==> NamesArchive(p, target) && p !in r.entries
    requires forall q :: q in a.entries && q !in removed && IsChildOf(q, Parent(target)) ==>
               q in r.entries && r.entries[q] == a.entries[q]
    ensures var evs := moved + RemovalEvents(removed);
            && (forall k :: 0 <= k < |evs| && evs[k].ArchivedFile? ==> k == 0 && evs[k] == ArchivedFile(target, archive))
            && (forall p :: RemovedArchive(p) in evs ==> NamesArchive(p, target) && p !in r.entries)
            && (ArchivedFile(target, archive) in evs && RemovedArchive(archive) !in evs ==>
                  archive in r.entries && r.entries[archive] == held)
  {
    ArchiveEventFromMove(moved, removed, target, archive);
    RemovalEventsNamed(moved, removed);
  }

  /** After the prune and the reopening, the removed archives are gone and
      every other entry beside the target is as it was. */
  lemma PruneAndReopenEntries(d: Disk, target: Path, maxArchives: nat, mode: nat, now: int)
    requires IsDirectory(d, Parent(target))
    ensures var pruned := Pruned(d, ArchivesOf(d, target), maxArchives);
            var r := OpenFile(pruned.disk, target, mode, now).disk;
            && (forall p :: p in pruned.removed ==> NamesArchive(p, target) && p !in r.entries)
            && (forall q :: q in d.entries && q !in pruned.removed && IsChildOf(q, Parent(target)) ==>
                  q in r.entries && r.entries[q] == d.entries[q])
  {
    PruneSurvivors(d, target, maxArchives);
    var pruned := Pruned(d, ArchivesOf(d, target), maxArchives);
    OpenFileAddsNoSibling(pruned.disk, target, mode, now);
  }

  /** A removal call after the first calls names a removed archive, and
      every removed archive has its call. */
  lemma RemovalEventsNamed(first: seq<Event>, removed: seq<Path>)
    requires forall k :: 0 <= k < |first| ==> first[k].ArchivedFile?
    ensures forall p :: RemovedArchive(p) in first + RemovalEvents(removed) <==> p in removed
  {
    var evs := first + RemovalEvents(removed);
    forall p | RemovedArchive(p) in evs ensures p in removed {
      var k :| 0 <= k < |evs| && evs[k] == RemovedArchive(p);
      assert k >= |first|;
      assert evs[k] == RemovalEvents(removed)[k - |first|];
    }
    forall p | p in removed ensures RemovedArchive(p) in evs {
      var j :| 0 <= j < |removed| && removed[j] == p;
      assert evs[|first| + j] == RemovedArchive(p);
    }
  }

  /** After a numbering rotation from disk `d`, disk `r` holds exactly the
      archives `.1` to `.k`: `.1` holds what the target held, `.(g + 1)` what
      `.g` held, and they are ordered by age, `.1` the youngest. */
  ghost predicate NumberedRetained(r: Disk, d: Disk, target: Path, k: nat) {
    && Kept(r, Parent(target), IsArchiveOf(target)) == NumberedSet(target, k)
    && (k >= 1 ==> target in d.entries && Numbered(target, 1) in r.entries && r.entries[Numbered(target, 1)] == d.entries[target])
    && (forall g :: 1 <= g < k ==> MovedUp(r, d, target, g))
    && (forall x, y :: 1 <= x < y <= k ==> ModificationTime(r, Numbered(target, y)) < ModificationTime(r, Numbered(target, x)))
  }

  /** A numbering rotation over archives `.1` to `.n`, ordered by age and
      all older than the target, with nothing locked, leaves exactly the
      archives `.1` to `.k`, `k = min(n + 1, maxArchives)`: `.1` holds what
      the target held, `.(g + 1)` what `.g` held, and they are still ordered
      by age, so the same holds of the next rotation. */
  lemma NumberingRotationKeepsNewest(d: Disk, target: Path, config: RotationConfig, n: nat, mode: nat, now: int,
                                     stamp: string, uuid: string)
    requires config.suffixExtension == Numbering && RotationDue(d, target, config.maxFileSize)
    requires NamedTarget(target) && IsDirectory(d, Parent(target))
    requires Kept(d, Parent(target), IsArchiveOf(target)) == NumberedSet(target, n)
    requires forall a, b :: 1 <= a < b <= n ==> ModificationTime(d, Numbered(target, b)) < ModificationTime(d, Numbered(target, a))
    requires forall g :: 1 <= g <= n ==> ModificationTime(d, Numbered(target, g)) < ModificationTime(d, target)
    requires target !in d.locked && ArchivesUnlocked(d, target)
    ensures NumberedRetained(Rotate(d, target, config, mode, now, stamp, uuid).disk, d, target,
                             if n + 1 <= config.maxArchives then n + 1 else config.maxArchives)
  {
    var a := Archived(d, target, config, stamp, uuid);
    RotateUnfolds(d, target, config, mode, now, stamp, uuid);
    NumberedArchivedStage(d, target, config, n, stamp, uuid);
    ShiftedOrder(d, a.disk, target, n);
    NumberedPruneAndReopen(d, a.disk, target, n, config.maxArchives, mode, now);
  }

  /** The prune and the reopening after a numbering rotation has left `.1`
      to `.(n + 1)`. */
  lemma NumberedPruneAndReopen(d: Disk, a: Disk, target: Path, n: nat, maxArchives: nat, mode: nat, now: int)
    requires NamedTarget(target) && IsDirectory(a, Parent(target)) && ArchivesUnlocked(a, target)
    requires Kept(a, Parent(target), IsArchiveOf(target)) == NumberedSet(target, n + 1)
    requires target in d.entries && Numbered(target, 1) in a.entries && a.entries[Numbered(target, 1)] == d.entries[target]
    requires forall g :: 1 <= g <= n ==> MovedUp(a, d, target, g)
    requires forall x, y :: 1 <= x < y <= n + 1 ==> ModificationTime(a, Numbered(target, y)) < ModificationTime(a, Numbered(target, x))
    ensures var r := OpenFile(Pruned(a, ArchivesOf(a, target), maxArchives).disk, target, mode, now).disk;
            NumberedRetained(r, d, target, if n + 1 <= maxArchives then n + 1 else maxArchives)
  {
    PruneOrderedNumbered(a, target, n + 1, maxArchives);
    var pruned := Pruned(a, ArchivesOf(a, target), maxArchives);
    var r := OpenFile(pruned.disk, target, mode, now).disk;
    OpenFileAddsNoSibling(pruned.disk, target, mode, now);
    GrowthKeepsArchives(pruned.disk, r, target);
    var k := if n + 1 <= maxArchives then n + 1 else maxArchives;
    NumberedSurvivors(d, a, pruned.disk, r, target, n, k);
  }

  /** The renumbering and archiving of a numbering rotation over `.1` to
      `.n` leave `.1` to `.(n + 1)`, each `.(g + 1)` holding what `.g` held,
      with nothing locked. */
  lemma NumberedArchivedStage(d: Disk, target: Path, config: RotationConfig, n: nat, stamp: string, uuid: string)
    requires config.suffixExtension == Numbering
    requires NamedTarget(target) && IsDirectory(d, Parent(target)) && target in d.entries
    requires Kept(d, Parent(target), IsArchiveOf(target)) == NumberedSet(target, n)
    requires forall a, b :: 1 <= a < b <= n ==> ModificationTime(d, Numbered(target, b)) < ModificationTime(d, Numbered(target, a))
    requires forall g :: 1 <= g <= n ==> ModificationTime(d, Numbered(target, g)) < ModificationTime(d, target)
    requires target !in d.locked && ArchivesUnlocked(d, target)
    ensures var a := Archived(d, target, config, stamp, uuid).disk;
            && IsDirectory(a, Parent(target)) && ArchivesUnlocked(a, target)
            && Kept(a, Parent(target), IsArchiveOf(target)) == NumberedSet(target, n + 1)
            && Numbered(target, 1) in a.entries && a.entries[Numbered(target, 1)] == d.entries[target]
            && (forall g :: 1 <= g <= n ==> MovedUp(a, d, target, g))
  {
    var a := Archived(d, target, config, stamp, uuid);
    forall g | 1 <= g <= n + 1 ensures Numbered(target, g) !in d.locked {
      NumberedNamesArchive(target, g);
    }
    NumberingRotationIsGapFree(d, target, n, stamp, uuid);
    OldArchivesKeepCount(d, target, Numbering);
    NumberedNamesArchive(target, 1);
    NumberingArchiveName(target, stamp, uuid);
    ArchiveTargetCount(OldArchivesRotated(d, target, Numbering), target, Numbered(target, 1));
  }

  /** What the reopened disk holds of the survivors of the prune. */
  lemma NumberedSurvivors(d: Disk, a: Disk, pd: Disk, rd: Disk, target: Path, n: nat, k: nat)
    requires k <= n + 1
    requires target in d.entries && Numbered(target, 1) in a.entries && a.entries[Numbered(target, 1)] == d.entries[target]
    requires forall g :: 1 <= g <= n ==> MovedUp(a, d, target, g)
    requires forall x, y :: 1 <= x < y <= n + 1 ==> ModificationTime(a, Numbered(target, y)) < ModificationTime(a, Numbered(target, x))
    requires forall g :: 1 <= g <= k ==> && Numbered(target, g) in a.entries && Numbered(target, g) in pd.entries
                                         && pd.entries[Numbered(target, g)] == a.entries[Numbered(target, g)]
    requires forall q :: q in pd.entries ==> q in rd.entries && rd.entries[q] == pd.entries[q]
    ensures k >= 1 ==> Numbered(target, 1) in rd.entries && rd.entries[Numbered(target, 1)] == d.entries[target]
    ensures forall g :: 1 <= g < k ==> MovedUp(rd, d, target, g)
    ensures forall x, y :: 1 <= x < y <= k ==> ModificationTime(rd, Numbered(target, y)) < ModificationTime(rd, Numbered(target, x))
  {
    forall g | 1 <= g < k ensures MovedUp(rd, d, target, g) {
      assert MovedUp(a, d, target, g);
    }
  }

  /** After the target became `.1` and `.g` became `.(g + 1)`, `.1` to
      `.(n + 1)` are ordered by age. */
  lemma ShiftedOrder(d: Disk, a: Disk, target: Path, n: nat)
    requires forall x, y :: 1 <= x < y <= n ==> ModificationTime(d, Numbered(target, y)) < ModificationTime(d, Numbered(target, x))
    requires forall g :: 1 <= g <= n ==> ModificationTime(d, Numbered(target, g)) < ModificationTime(d, target)
    requires target in d.entries && Numbered(target, 1) in a.entries && a.entries[Numbered(target, 1)] == d.entries[target]
    requires forall g :: 1 <= g <= n ==> MovedUp(a, d, target, g)
    ensures forall x, y :: 1 <= x < y <= n + 1 ==> ModificationTime(a, Numbered(target, y)) < ModificationTime(a, Numbered(target, x))
  {
    forall x, y | 1 <= x < y <= n + 1
      ensures ModificationTime(a, Numbered(target, y)) < ModificationTime(a, Numbered(target, x))
    {
      assert MovedUp(a, d, target, y - 1);
      if x > 1 {
        assert MovedUp(a, d, target, x - 1);
      }
    }
  }

  /** Archives `.1` to `.m` ordered by age are catalogued `.m` first, so the
      prune keeps `.1` to `.min(m, maxArchives)`. */
  lemma PruneOrderedNumbered(d: Disk, target: Path, m: nat, maxArchives: nat)
    requires NamedTarget(target) && IsDirectory(d, Parent(target)) && ArchivesUnlocked(d, target)
    requires Kept(d, Parent(target), IsArchiveOf(target)) == NumberedSet(target, m)
    requires forall x, y :: 1 <= x < y <= m ==> ModificationTime(d, Numbered(target, y)) < ModificationTime(d, Numbered(target, x))
    ensures var pruned := Pruned(d, ArchivesOf(d, target), maxArchives);
            var k := if m <= maxArchives then m else maxArchives;
            && IsDirectory(pruned.disk, Parent(target))
            && Kept(pruned.disk, Parent(target), IsArchiveOf(target)) == NumberedSet(target, k)
            && forall g :: 1 <= g <= k ==> && Numbered(target, g) in d.entries && Numbered(target, g) in pruned.disk.entries
                                           && pruned.disk.entries[Numbered(target, g)] == d.entries[Numbered(target, g)]
  {
    NumberedCatalogue(d, target, m);
    PruneNumbered(d, target, m, maxArchives);
  }

  /** Pruning `.m, ..., .1` down to `maxArchives` removes the highest
      numbers and leaves `.1` to `.min(m, maxArchives)` as they were. */
  lemma PruneNumbered(d: Disk, target: Path, m: nat, maxArchives: nat)
    requires NamedTarget(target) && IsDirectory(d, Parent(target)) && ArchivesUnlocked(d, target)
    requires ArchivesOf(d, target) == NumberedOldestFirst(target, m)
    requires Kept(d, Parent(target), IsArchiveOf(target)) == NumberedSet(target, m)
    ensures var pruned := Pruned(d, ArchivesOf(d, target), maxArchives);
            var k := if m <= maxArchives then m else maxArchives;
            && IsDirectory(pruned.disk, Parent(target))
            && Kept(pruned.disk, Parent(target), IsArchiveOf(target)) == NumberedSet(target, k)
            && forall g :: 1 <= g <= k ==> && Numbered(target, g) in d.entries && Numbered(target, g) in pruned.disk.entries
                                           && pruned.disk.entries[Numbered(target, g)] == d.entries[Numbered(target, g)]
  {
    CatalogueUnnested(d, Parent(target), IsArchiveOf(target));
    PruneNumberedCatalogue(d, target, m, maxArchives, ArchivesOf(d, target));
  }

  lemma PruneNumberedCatalogue(d: Disk, target: Path, m: nat, maxArchives: nat, cat: seq<Path>)
    requires NamedTarget(target) && IsDirectory(d, Parent(target)) && ArchivesUnlocked(d, target)
    requires cat == NumberedOldestFirst(target, m) && Unnested(cat)
    requires Kept(d, Parent(target), IsArchiveOf(target)) == NumberedSet(target, m)
    ensures var pruned := Pruned(d, cat, maxArchives);
            var k := if m <= maxArchives then m else maxArchives;
            && IsDirectory(pruned.disk, Parent(target))
            && Kept(pruned.disk, Parent(target), IsArchiveOf(target)) == NumberedSet(target, k)
            && forall g :: 1 <= g <= k ==> && Numbered(target, g) in d.entries && Numbered(target, g) in pruned.disk.entries
                                           && pruned.disk.entries[Numbered(target, g)] == d.entries[Numbered(target, g)]
  {
    var e := Excess(m, maxArchives);
    NumberedRemovable(d, target, m, e);
    PruneCompletes(d, cat, maxArchives);
    PruneShape(d, cat, maxArchives);
    var pruned := Pruned(d, cat, maxArchives);
    RemovedNumbered(d, pruned.disk, target, m, e, pruned.removed);
  }

  /** The `e` oldest of `.m, ..., .1` are on the disk and not locked. */
  lemma NumberedRemovable(d: Disk, target: Path, m: nat, e: nat)
    requires NamedTarget(target) && ArchivesUnlocked(d, target) && e <= m
    requires Kept(d, Parent(target), IsArchiveOf(target)) == NumberedSet(target, m)
    ensures var cat := NumberedOldestFirst(target, m);
            forall j :: 0 <= j < e ==> cat[j] in d.entries && cat[j] !in d.locked
  {
    var cat := NumberedOldestFirst(target, m);
    forall j | 0 <= j < e ensures cat[j] in d.entries && cat[j] !in d.locked {
      assert cat[j] == Numbered(target, m - j);
      NumberedNamesArchive(target, m - j);
      assert Numbered(target, m - j) in NumberedSet(target, m);
    }
  }

  /** Taking the `e` oldest of `.m, ..., .1` off the disk leaves `.1` to
      `.(m - e)` as they were. */
  lemma RemovedNumbered(d: Disk, d': Disk, target: Path, m: nat, e: nat, removed: seq<Path>)
    requires NamedTarget(target) && IsDirectory(d, Parent(target)) && e <= m
    requires Kept(d, Parent(target), IsArchiveOf(target)) == NumberedSet(target, m)
    requires removed == NumberedOldestFirst(target, m)[..e] && d'.entries == Without(d.entries, removed)
    ensures IsDirectory(d', Parent(target))
    ensures Kept(d', Parent(target), IsArchiveOf(target)) == NumberedSet(target, m - e)
    ensures forall g :: 1 <= g <= m - e ==> Numbered(target, g) in d'.entries && d'.entries[Numbered(target, g)] == d.entries[Numbered(target, g)]
  {
    var dir, keep := Parent(target), IsArchiveOf(target);
    forall p | p in removed ensures IsChildOf(p, dir) {
      var j :| 0 <= j < e && removed[j] == p;
      NumberedNamesArchive(target, m - j);
    }
    KeptAfterRemoval(d, dir, keep, removed, d');
    DropOldestNumbered(target, m, e);
    WithoutSiblings(d.entries, removed, dir);
    forall g | 1 <= g <= m - e
      ensures Numbered(target, g) in d'.entries && d'.entries[Numbered(target, g)] == d.entries[Numbered(target, g)]
    {
      assert Numbered(target, g) in NumberedSet(target, m - e);
      NumberedNamesArchive(target, g);
    }
  }

  /** Dropping the `e` oldest of `.m, ..., .1` leaves `.1` to `.(m - e)`. */
  lemma DropOldestNumbered(target: Path, m: nat, e: nat)
    requires NamedTarget(target) && e <= m
    ensures NumberedSet(target, m) - Elems(NumberedOldestFirst(target, m)[..e]) == NumberedSet(target, m - e)
  {
    var cat := NumberedOldestFirst(target, m);
    var dropped := Elems(cat[..e]);
    forall g | m - e < g <= m ensures Numbered(target, g) in dropped {
      assert cat[..e][m - g] == Numbered(target, g);
    }
    forall x | x in NumberedSet(target, m - e) ensures x in NumberedSet(target, m) && x !in dropped {
      var g :| 1 <= g <= m - e && x == Numbered(target, g);
      forall j | 0 <= j < e ensures cat[..e][j] != x {
        NumberedInjective(target, m - j, g);
      }
    }
  }

  /** Pruning removes archives only: the target is none of them, and lies
      below none of them. */
  lemma PruneSparesTarget(d: Disk, target: Path, maxArchives: nat)
    ensures var r := Pruned(d, ArchivesOf(d, target), maxArchives);
            && r.disk.locked == d.locked
            && (forall q :: q in r.disk.entries ==> q in d.entries && r.disk.entries[q] == d.entries[q])
            && (target in d.entries ==> target in r.disk.entries)
  {
    var cat := ArchivesOf(d, target);
    PruneShape(d, cat, maxArchives);
    var r := Pruned(d, cat, maxArchives);
    ArchivesSpareTarget(d, target, r.removed);
  }

  /** No archive of the target contains it. */
  lemma ArchivesSpareTarget(d: Disk, target: Path, removed: seq<Path>)
    requires forall j :: 0 <= j < |removed| ==> removed[j] in ArchivesOf(d, target)
    ensures forall j :: 0 <= j < |removed| ==> !IsWithin(target, removed[j])
  {
    forall j | 0 <= j < |removed| ensures !IsWithin(target, removed[j]) {
      if target != [] {
        ApartAtSameDepth(target, removed[j]);
      }
    }
  }

  /** After a rotation that archived the target and reopened it, the target
      is a new empty file, so the check that follows does nothing. */
  lemma SecondCheckIsNoOp(d: Disk, target: Path, config: RotationConfig, mode: nat, now: int, stamp: string, uuid: string,
                          later: int, stamp': string, uuid': string)
    requires RotationDue(d, target, config.maxFileSize)
    requires var r := Rotate(d, target, config, mode, now, stamp, uuid);
             ArchivedFile(target, ArchiveName(config.suffixExtension, target, stamp, uuid)) in r.events && r.reopenError.None?
    ensures var r := Rotate(d, target, config, mode, now, stamp, uuid);
            && FileSize(r.disk, target) == Some(0)
            && Rotate(r.disk, target, config, mode, later, stamp', uuid') == Rotation(r.disk, [], None)
  {
    var archive := ArchiveName(config.suffixExtension, target, stamp, uuid);
    var archived := ArchiveTarget(OldArchivesRotated(d, target, config.suffixExtension), target, archive);
    var pruned := Pruned(archived.disk, ArchivesOf(archived.disk, target), config.maxArchives);
    ArchivedOnlyByMove(archived.events, pruned.removed, target, archive);
    PruneSparesTarget(archived.disk, target, config.maxArchives);
    ReopenedEmpty(pruned.disk, target, mode, now);
  }

  /** The archive event of a rotation comes from the move, not from the pruning. */
  lemma ArchivedOnlyByMove(moved: seq<Event>, removed: seq<Path>, target: Path, archive: Path)
    requires ArchivedFile(target, archive) in moved + RemovalEvents(removed)
    ensures moved != []
  {
    var rem := RemovalEvents(removed);
    assert forall k :: 0 <= k < |rem| ==> rem[k].RemovedArchive?;
    assert ArchivedFile(target, archive) !in rem;
  }

  /** A target reopened after it moved away is a new empty file. */
  lemma ReopenedEmpty(d: Disk, target: Path, mode: nat, now: int)
    requires target !in d.entries && OpenFile(d, target, mode, now).error.None?
    ensures FileSize(OpenFile(d, target, mode, now).disk, target) == Some(0)
  {
  }

  /** When the target cannot be archived, it survives the rotation unchanged,
      so the next check tries again. */
  lemma FailedArchiveKeepsTarget(d: Disk, target: Path, config: RotationConfig, mode: nat, now: int, stamp: string, uuid: string)
    requires RotationDue(d, target, config.maxFileSize)
    requires var r := Rotate(d, target, config, mode, now, stamp, uuid);
             ArchivedFile(target, ArchiveName(config.suffixExtension, target, stamp, uuid)) !in r.events
    ensures var r := Rotate(d, target, config, mode, now, stamp, uuid);
            && FileSize(r.disk, target) == FileSize(d, target)
            && RotationDue(r.disk, target, config.maxFileSize)
  {
    var archive := ArchiveName(config.suffixExtension, target, stamp, uuid);
    var d1 := OldArchivesRotated(d, target, config.suffixExtension);
    OldArchivesKeepTarget(d, target, config.suffixExtension);
    var archived := ArchiveTarget(d1, target, archive);
    assert archived.events + [] == archived.events;
    assert archived.disk == d1;
    PruneSparesTarget(d1, target, config.maxArchives);
    var pruned := Pruned(d1, ArchivesOf(d1, target), config.maxArchives);
    assert pruned.disk.entries[target] == d.entries[target];
    var reopened := OpenFile(pruned.disk, target, mode, now);
    assert reopened.disk.entries[target] == d.entries[target];
  }

  /** Renumbering the old archives leaves the target alone. */
  lemma OldArchivesKeepTarget(d: Disk, target: Path, suffix: SuffixExtension)
    requires target in d.entries
    ensures var d1 := OldArchivesRotated(d, target, suffix);
            target in d1.entries && d1.entries[target] == d.entries[target]
  {
    if suffix == Numbering {
      RenumberKeeps(d, ArchivesOf(d, target), 0, target);
    }
  }

  /** The whole of `log`: check, append, check. */
  function LogStep(d: Disk, target: Path, config: RotationConfig, mode: nat, cal: Calendar,
                   bytes: nat, before: Moment, write: int, after: Moment): (r: Outcome)
  {
    var first := Rotate(d, target, config, mode, before.now, cal.format(ArchiveStampFormat, before.now), before.uuid);
    var written := Append(first.disk, target, bytes, write);
    var second := Rotate(written, target, config, mode, after.now, cal.format(ArchiveStampFormat, after.now), after.uuid);
    Outcome(second.disk, first.events + second.events)
  }

  /** A log call on a target below the bound whose record still fits only
      appends the record. */
  lemma LogWithoutRotation(d: Disk, target: Path, config: RotationConfig, mode: nat, cal: Calendar,
                           bytes: nat, before: Moment, write: int, after: Moment)
    requires CanOpenForWriting(d, target) && d.entries[target].size + bytes <= config.maxFileSize
    ensures LogStep(d, target, config, mode, cal, bytes, before, write, after) == Outcome(Append(d, target, bytes, write), [])
  {
  }

  /** A log call that finds the target over the bound archives it and writes
      the record to a new target; a record no larger than the bound leaves
      no rotation for the second check, and the target holds exactly it. */
  lemma LogRestartsOversizedTarget(d: Disk, target: Path, config: RotationConfig, mode: nat, cal: Calendar,
                                   bytes: nat, before: Moment, write: int, after: Moment)
    requires RotationDue(d, target, config.maxFileSize) && bytes <= config.maxFileSize
    requires var stamp := cal.format(ArchiveStampFormat, before.now);
             var r := Rotate(d, target, config, mode, before.now, stamp, before.uuid);
             ArchivedFile(target, ArchiveName(config.suffixExtension, target, stamp, before.uuid)) in r.events && r.reopenError.None?
    ensures var r := LogStep(d, target, config, mode, cal, bytes, before, write, after);
            FileSize(r.disk, target) == Some(bytes)
  {
    var stamp := cal.format(ArchiveStampFormat, before.now);
    SecondCheckIsNoOp(d, target, config, mode, before.now, stamp, before.uuid, before.now, stamp, before.uuid);
  }

  // ------------------------------------------------------------------ logger

  class FileRotationLogger {
    /** The filesystem the logger writes to. */
    var disk: Disk
    /** The calls made on the delegate so far. */
    var events: seq<Event>

    const fileURL: Path
    const filePermission: string
    const config: RotationConfig
    const hasDelegate: bool
    const cal: Calendar

    ghost predicate Valid() {
      ValidPermission(filePermission)
    }

    constructor Opened(disk: Disk, fileURL: Path, filePermission: string, config: RotationConfig, hasDelegate: bool, cal: Calendar)
      requires ValidPermission(filePermission)
      ensures Valid()
      ensures this.disk == disk && this.events == []
      ensures this.fileURL == fileURL && this.filePermission == filePermission
      ensures this.config == config && this.hasDelegate == hasDelegate && this.cal == cal
    {
      this.disk := disk;
      this.events := [];
      this.fileURL := fileURL;
      this.filePermission := filePermission;
      this.config := config;
      this.hasDelegate := hasDelegate;
      this.cal := cal;
    }

    /** `init`: validates the URL and the permission and opens the target;
        any failure is thrown to the caller. */
    static method Create(d: Disk, fileURL: Path, hasDirectoryPath: bool, filePermission: string,
                         config: RotationConfig, hasDelegate: bool, cal: Calendar, now: int)
      returns (r: Result<FileRotationLogger, FileError>, after: Disk)
      ensures var s := StartFile(d, fileURL, hasDirectoryPath, filePermission, now);
              && after == s.disk
              && (r.Failure? <==> s.error.Some?)
              && (r.Failure? ==> r.error == s.error.value)
      ensures r.Success? ==> && fresh(r.value) && r.value.Valid()
                             && r.value.disk == after && r.value.events == []
                             && r.value.fileURL == fileURL && r.value.filePermission == filePermission && r.value.config == config
                             && r.value.hasDelegate == hasDelegate && r.value.cal == cal
    {
      var s := StartFile(d, fileURL, hasDirectoryPath, filePermission, now);
      after := s.disk;
      if s.error.Some? {
        r := Failure(s.error.value);
      } else {
        var logger := new FileRotationLogger.Opened(s.disk, fileURL, filePermission, config, hasDelegate, cal);
        r := Success(logger);
      }
    }

    /** `rotateOldArchives`. */
    method RotateOldArchives()
      modifies this
      ensures disk == OldArchivesRotated(old(disk), fileURL, config.suffixExtension)
      ensures events == old(events)
    {
      if config.suffixExtension == Numbering {
        disk := Renumber(disk, ArchivesOf(disk, fileURL));
      }
    }

    /** `archiveTargetFiles`, at the instant and with the UUID of `m`. */
    method ArchiveTargetFiles(m: Moment)
      modifies this
      ensures var a := ArchiveTarget(old(disk), fileURL, ArchiveName(config.suffixExtension, fileURL, cal.format(ArchiveStampFormat, m.now), m.uuid));
              disk == a.disk && events == old(events) + Notify(hasDelegate, a.events)
    {
      var archive := ArchiveName(config.suffixExtension, fileURL, cal.format(ArchiveStampFormat, m.now), m.uuid);
      var moved := MoveItem(disk, fileURL, archive);
      if moved.Some? {
        disk := moved.value;
        if hasDelegate {
          events := events + [ArchivedFile(fileURL, archive)];
        }
      }
    }

    /** `removeArchives(fileURL, maxArchives:)`. */
    method RemoveArchives()
      modifies this
      ensures var p := Pruned(old(disk), ArchivesOf(old(disk), fileURL), config.maxArchives);
              disk == p.disk && events == old(events) + Notify(hasDelegate, RemovalEvents(p.removed))
    {
      var pruned := RemoveOldest(disk, ArchivesOf(disk, fileURL), config.maxArchives);
      disk := pruned.disk;
      events := events + Notify(hasDelegate, RemovalEvents(pruned.removed));
    }

    /** `rotateFiles`. */
    method RotateFiles(m: Moment)
      requires Valid()
      modifies this
      ensures var r := Rotate(old(disk), fileURL, config, Mode(filePermission), m.now, cal.format(ArchiveStampFormat, m.now), m.uuid);
              disk == r.disk && events == old(events) + Notify(hasDelegate, r.events)
    {
      if !RotationDue(disk, fileURL, config.maxFileSize) {
        return;
      }
      ghost var d0, e0 := disk, events;
      ghost var stamp := cal.format(ArchiveStampFormat, m.now);
      RotateOldArchives();
      ghost var a := ArchiveTarget(disk, fileURL, ArchiveName(config.suffixExtension, fileURL, stamp, m.uuid));
      ArchiveTargetFiles(m);
      assert disk == a.disk && events == e0 + Notify(hasDelegate, a.events);
      ghost var p := Pruned(disk, ArchivesOf(disk, fileURL), config.maxArchives);
      RemoveArchives();
      assert events == e0 + Notify(hasDelegate, a.events) + Notify(hasDelegate, RemovalEvents(p.removed));
      var reopened := OpenFile(disk, fileURL, Mode(filePermission), m.now);
      disk := reopened.disk;
      NotifyConcat(hasDelegate, e0, a.events, RemovalEvents(p.removed));
    }

    /** `log`: a rotation check, the append of the rendered record, and a
        second rotation check. */
    method Log(bytes: nat, before: Moment, write: int, after: Moment)
      requires Valid()
      modifies this
      ensures var r := LogStep(old(disk), fileURL, config, Mode(filePermission), cal, bytes, before, write, after);
              disk == r.disk && events == old(events) + Notify(hasDelegate, r.events)
    {
      ghost var d0, e0 := disk, events;
      ghost var first := Rotate(disk, fileURL, config, Mode(filePermission), before.now, cal.format(ArchiveStampFormat, before.now), before.uuid);
      RotateFiles(before);
      disk := Append(disk, fileURL, bytes, write);
      ghost var second := Rotate(disk, fileURL, config, Mode(filePermission), after.now, cal.format(ArchiveStampFormat, after.now), after.uuid);
      RotateFiles(after);
      assert LogStep(d0, fileURL, config, Mode(filePermission), cal, bytes, before, write, after) == Outcome(second.disk, first.events + second.events);
      NotifyConcat(hasDelegate, e0, first.events, second.events);
    }
  }
}
