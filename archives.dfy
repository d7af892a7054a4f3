/** What the three loggers share about archives: a catalogue of one
    directory's entries in ascending modification time (`ascArchivesURLs`),
    and the removal of the oldest ones beyond a bound (`removeArchives`). */
module Archives {
  import opened Wrappers
  import opened Paths
  import opened FileSystem
  import opened Order

  /** The archive order of `sorted { mtime($0) < mtime($1) }` applied to a
      listing that arrives in path order: the sort is stable, so entries of
      equal age keep their path order. */
  function AgeOrder(d: Disk): (Path, Path) -> bool {
    (a: Path, b: Path) =>
      ModificationTime(d, a) < ModificationTime(d, b) ||
      (ModificationTime(d, a) == ModificationTime(d, b) && PathLe(a, b))
  }

  lemma AgeOrderTotal(d: Disk)
    ensures TotalOrder(AgeOrder(d))
  {
    PathLeTotalOrder();
  }

  /** The paths `s`, oldest first. */
  function OldestFirst(d: Disk, s: set<Path>): (r: seq<Path>)
    ensures |r| == |s| && forall p :: p in r <==> p in s
  {
    AgeOrderTotal(d);
    SortedBy(s, AgeOrder(d))
  }

  /** Which entries of the listed directory a logger counts as archives. */
  type Filter = (Path, Entry) -> bool

  /** The entries of `dir` that `keep` accepts. */
  ghost function Kept(d: Disk, dir: Path, keep: Filter): set<Path> {
    set p | p in d.entries && IsChildOf(p, dir) && keep(p, d.entries[p])
  }

  /** `ascArchivesURLs`: list `dir`, keep what `keep` accepts, order oldest
      first; a directory that cannot be listed gives no archives. */
  function Catalogue(d: Disk, dir: Path, keep: Filter): (r: seq<Path>)
    ensures !IsDirectory(d, dir) ==> r == []
    ensures IsDirectory(d, dir) ==> forall p :: p in r <==> p in d.entries && IsChildOf(p, dir) && keep(p, d.entries[p])
  {
    match ContentsOfDirectory(d, dir)
    case None => []
    case Some(names) => OldestFirst(d, set p | p in names && keep(p, d.entries[p]))
  }

  lemma CatalogueIsOldestFirst(d: Disk, dir: Path, keep: Filter)
    requires IsDirectory(d, dir)
    ensures Catalogue(d, dir, keep) == OldestFirst(d, Kept(d, dir, keep))
  {
    assert (set p | p in ContentsOfDirectory(d, dir).value && keep(p, d.entries[p])) == Kept(d, dir, keep);
  }

  /** A listed directory has as many archives as its kept set has members. */
  lemma CatalogueSize(d: Disk, dir: Path, keep: Filter)
    requires IsDirectory(d, dir)
    ensures |Catalogue(d, dir, keep)| == |Kept(d, dir, keep)|
  {
    CatalogueIsOldestFirst(d, dir, keep);
  }

  /** A successful move takes `src` out of the kept set and puts `dst` in
      when the filter accepts it there. */
  lemma MoveKept(d: Disk, src: Path, dst: Path, dir: Path, keep: Filter)
    requires CanMove(d, src, dst)
    ensures var d' := MoveItem(d, src, dst).value;
            Kept(d', dir, keep) ==
              (Kept(d, dir, keep) - {src}) + (if IsChildOf(dst, dir) && keep(dst, d.entries[src]) then {dst} else {})
  {
  }

  /** A step that keeps every entry, and whose new entries in `dir` that the
      filter accepts all lie in `extra`, grows the kept set by part of
      `extra` and by nothing else. */
  lemma KeptGrows(d: Disk, d': Disk, dir: Path, keep: Filter, extra: set<Path>)
    requires forall q :: q in d.entries ==> q in d'.entries && d'.entries[q] == d.entries[q]
    requires forall q :: q in d'.entries && q !in d.entries && IsChildOf(q, dir) && keep(q, d'.entries[q]) ==> q in extra
    ensures Kept(d, dir, keep) <= Kept(d', dir, keep) <= Kept(d, dir, keep) + extra
  {
  }

  /** A set squeezed between `a` and `a` with one more member `x` has the
      size of `a`, or one more when it holds `x` and `a` does not. */
  lemma SqueezedSize<T>(a: set<T>, b: set<T>, x: T)
    requires a <= b <= a + {x}
    ensures |b| == if x in b && x !in a then |a| + 1 else |a|
  {
    if x in b && x !in a {
      assert b == a + {x};
    } else {
      assert b == a;
    }
  }

  /** Each archive is listed once, and no archive is listed after a younger
      one. */
  lemma CatalogueOrdered(d: Disk, dir: Path, keep: Filter)
    ensures Distinct(Catalogue(d, dir, keep))
    ensures forall i, j :: 0 <= i < j < |Catalogue(d, dir, keep)| ==>
              ModificationTime(d, Catalogue(d, dir, keep)[i]) <= ModificationTime(d, Catalogue(d, dir, keep)[j])
  {
    if IsDirectory(d, dir) {
      CatalogueIsOldestFirst(d, dir, keep);
      AgeOrderTotal(d);
      SortedByAscending(Kept(d, dir, keep), AgeOrder(d));
    }
  }

  /** How many of `count` archives exceed the bound `maxArchives`. */
  function Excess(count: nat, maxArchives: nat): (n: nat)
    ensures n <= count
    ensures count <= maxArchives ==> n == 0
    ensures count > maxArchives ==> count - n == maxArchives
  {
    if count > maxArchives then count - maxArchives else 0
  }

  /** The calls a delegate hears: all of them, one per event, or none from
      a weak delegate that is not set. The size logger's events are its
      archive and removal calls, the folder loggers' the removed URLs. */
  function Notify<T>(hasDelegate: bool, events: seq<T>): seq<T> {
    if hasDelegate then events else []
  }

  /** The delegate hears a sequence of calls in two parts as it hears the whole. */
  lemma NotifyConcat<T>(hasDelegate: bool, past: seq<T>, a: seq<T>, b: seq<T>)
    ensures past + Notify(hasDelegate, a) + Notify(hasDelegate, b) == past + Notify(hasDelegate, a + b)
  {
  }

  /** The disk after `removeArchives`, and the archives it removed (one
      `didRemoveArchivesURL` notification each, in this order). */
  datatype Pruning = Pruning(disk: Disk, removed: seq<Path>)

  /** Removes `cat[i]`, `cat[i + 1]`, ... up to index `n`; the first removal
      that throws ends the loop. */
  function PruneFrom(d: Disk, cat: seq<Path>, i: nat, n: nat): (r: Pruning)
    requires i <= n <= |cat|
    ensures |r.removed| <= n - i
    decreases n - i
  {
    if i == n then Pruning(d, [])
    else
      match RemoveItem(d, cat[i])
      case None => Pruning(d, [])
      case Some(d') =>
        var rest := PruneFrom(d', cat, i + 1, n);
        Pruning(rest.disk, [cat[i]] + rest.removed)
  }

  /** `removeArchives` over the catalogue `cat`. */
  function Pruned(d: Disk, cat: seq<Path>, maxArchives: nat): (r: Pruning)
    ensures |r.removed| <= Excess(|cat|, maxArchives)
  {
    PruneFrom(d, cat, 0, Excess(|cat|, maxArchives))
  }

  /** `removeArchives`' loop. */
  method RemoveOldest(d: Disk, cat: seq<Path>, maxArchives: nat) returns (r: Pruning)
    ensures r == Pruned(d, cat, maxArchives)
  {
    var n := Excess(|cat|, maxArchives);
    var disk := d;
    var removed: seq<Path> := [];
    var i := 0;
    var failed := false;
    while i < n && !failed
      invariant i <= n
      invariant failed ==> PruneFrom(disk, cat, i, n) == Pruning(disk, [])
      invariant Pruned(d, cat, maxArchives) ==
                Pruning(PruneFrom(disk, cat, i, n).disk, removed + PruneFrom(disk, cat, i, n).removed)
      decreases n - i, if failed then 0 else 1
    {
      var next := RemoveItem(disk, cat[i]);
      if next.None? {
        failed := true;
      } else {
        ghost var rest := PruneFrom(next.value, cat, i + 1, n);
        assert removed + ([cat[i]] + rest.removed) == (removed + [cat[i]]) + rest.removed;
        disk := next.value;
        removed := removed + [cat[i]];
        i := i + 1;
      }
    }
    r := Pruning(disk, removed);
  }

  /** Some path of `xs` is `q` or an ancestor of it. */
  ghost predicate CoveredBy(q: Path, xs: seq<Path>) {
    exists j :: 0 <= j < |xs| && IsWithin(q, xs[j])
  }

  /** `m` with every entry at or below a path of `xs` taken out. */
  ghost function Without(m: map<Path, Entry>, xs: seq<Path>): map<Path, Entry> {
    map q | q in m && !CoveredBy(q, xs) :: m[q]
  }

  lemma WithoutNothing(m: map<Path, Entry>)
    ensures Without(m, []) == m
  {
  }

  lemma WithoutOneMore(m: map<Path, Entry>, cur: map<Path, Entry>, xs: seq<Path>, x: Path, next: map<Path, Entry>)
    requires cur == Without(m, xs)
    requires forall q :: (q in next <==> q in cur && !IsWithin(q, x)) && (q in next ==> next[q] == cur[q])
    ensures next == Without(m, xs + [x])
  {
    forall q ensures CoveredBy(q, xs + [x]) <==> CoveredBy(q, xs) || IsWithin(q, x) {
      if CoveredBy(q, xs) {
        var j :| 0 <= j < |xs| && IsWithin(q, xs[j]);
        assert (xs + [x])[j] == xs[j];
      }
      if IsWithin(q, x) {
        assert (xs + [x])[|xs|] == x;
      }
      if CoveredBy(q, xs + [x]) {
        var j :| 0 <= j < |xs| + 1 && IsWithin(q, (xs + [x])[j]);
        if j < |xs| {
          assert (xs + [x])[j] == xs[j];
        }
      }
    }
  }

  /** Taking out entries of one directory removes exactly those among the
      entries of that directory. */
  lemma WithoutSiblings(m: map<Path, Entry>, xs: seq<Path>, dir: Path)
    requires forall p :: p in xs ==> IsChildOf(p, dir)
    ensures forall p :: p in xs ==> p !in Without(m, xs)
    ensures forall q :: q in m && q !in xs && IsChildOf(q, dir) ==> q in Without(m, xs) && Without(m, xs)[q] == m[q]
  {
    forall p | p in xs ensures CoveredBy(p, xs) {
      var j :| 0 <= j < |xs| && xs[j] == p;
      assert IsWithin(p, xs[j]);
    }
    forall q | q in m && q !in xs && IsChildOf(q, dir) ensures !CoveredBy(q, xs) {
      forall j | 0 <= j < |xs| ensures !IsWithin(q, xs[j]) {
        assert xs[j] in xs;
        ApartAtSameDepth(q, xs[j]);
      }
    }
  }

  /** The removed archives are consecutive, from `cat[i]` on, and a short
      run ends at an archive that cannot be removed. */
  lemma {:induction false} PruneFromPrefix(d: Disk, cat: seq<Path>, i: nat, n: nat)
    requires i <= n <= |cat|
    ensures var r := PruneFrom(d, cat, i, n);
            && r.removed == cat[i..i + |r.removed|]
            && (i + |r.removed| < n ==> RemoveItem(r.disk, cat[i + |r.removed|]).None?)
  {
    PruneFromConsecutive(d, cat, i, n);
    PruneFromStops(d, cat, i, n);
  }

  lemma {:induction false} PruneFromConsecutive(d: Disk, cat: seq<Path>, i: nat, n: nat)
    requires i <= n <= |cat|
    ensures var r := PruneFrom(d, cat, i, n);
            r.removed == cat[i..i + |r.removed|]
    decreases n - i
  {
    if i < n && RemoveItem(d, cat[i]).Some? {
      var d' := RemoveItem(d, cat[i]).value;
      PruneStep(d, cat, i, n);
      PruneFromConsecutive(d', cat, i + 1, n);
      var rest := PruneFrom(d', cat, i + 1, n);
      SliceCons(cat, i, i + 1 + |rest.removed|);
      assert i + |PruneFrom(d, cat, i, n).removed| == i + 1 + |rest.removed|;
    } else {
      PruneStop(d, cat, i, n);
    }
  }

  lemma {:induction false} PruneFromStops(d: Disk, cat: seq<Path>, i: nat, n: nat)
    requires i <= n <= |cat|
    ensures var r := PruneFrom(d, cat, i, n);
            i + |r.removed| < n ==> RemoveItem(r.disk, cat[i + |r.removed|]).None?
    decreases n - i
  {
    if i < n && RemoveItem(d, cat[i]).Some? {
      var d' := RemoveItem(d, cat[i]).value;
      PruneStep(d, cat, i, n);
      PruneFromStops(d', cat, i + 1, n);
      var rest := PruneFrom(d', cat, i + 1, n);
      assert i + |PruneFrom(d, cat, i, n).removed| == i + 1 + |rest.removed|;
    } else {
      PruneStop(d, cat, i, n);
    }
  }

  lemma PruneStep(d: Disk, cat: seq<Path>, i: nat, n: nat)
    requires i < n <= |cat| && RemoveItem(d, cat[i]).Some?
    ensures var rest := PruneFrom(RemoveItem(d, cat[i]).value, cat, i + 1, n);
            PruneFrom(d, cat, i, n) == Pruning(rest.disk, [cat[i]] + rest.removed)
  {
  }

  lemma PruneStop(d: Disk, cat: seq<Path>, i: nat, n: nat)
    requires i <= n <= |cat| && (i < n ==> RemoveItem(d, cat[i]).None?)
    ensures PruneFrom(d, cat, i, n) == Pruning(d, [])
  {
  }

  lemma SliceCons<T>(s: seq<T>, i: nat, j: nat)
    requires i < j <= |s|
    ensures s[i..j] == [s[i]] + s[i + 1..j]
    ensures s[..i + 1] == s[..i] + [s[i]]
  {
  }

  /** The disk loses the removed archives and what lies below them. */
  lemma {:induction false} PruneFromDisk(d0: Disk, d: Disk, cat: seq<Path>, i: nat, n: nat)
    requires i <= n <= |cat|
    requires d.entries == Without(d0.entries, cat[..i]) && d.locked == d0.locked
    ensures var r := PruneFrom(d, cat, i, n);
            && r.disk.entries == Without(d0.entries, cat[..i + |r.removed|])
            && r.disk.locked == d0.locked
    decreases n - i
  {
    if i < n && RemoveItem(d, cat[i]).Some? {
      var d' := RemoveItem(d, cat[i]).value;
      PruneStep(d, cat, i, n);
      RemoveOneMore(d0, d, cat, i);
      PruneFromDisk(d0, d', cat, i + 1, n);
      var rest := PruneFrom(d', cat, i + 1, n);
      assert i + |PruneFrom(d, cat, i, n).removed| == i + 1 + |rest.removed|;
    } else {
      PruneStop(d, cat, i, n);
      assert i + |PruneFrom(d, cat, i, n).removed| == i;
    }
  }

  lemma RemoveOneMore(d0: Disk, d: Disk, cat: seq<Path>, i: nat)
    requires i < |cat| && d.entries == Without(d0.entries, cat[..i]) && RemoveItem(d, cat[i]).Some?
    ensures RemoveItem(d, cat[i]).value.entries == Without(d0.entries, cat[..i + 1])
  {
    SliceCons(cat, i, i + 1);
    RemoveItemEffect(d, cat[i]);
    WithoutOneMore(d0.entries, d.entries, cat[..i], cat[i], RemoveItem(d, cat[i]).value.entries);
  }

  /** `removeArchives` removes a prefix of the catalogue, oldest first, never
      more than the excess; it stops early only at a removal that throws; and
      the disk loses exactly the removed archives and what lies below them. */
  lemma PruneShape(d: Disk, cat: seq<Path>, maxArchives: nat)
    ensures var r := Pruned(d, cat, maxArchives);
            && |r.removed| <= Excess(|cat|, maxArchives)
            && r.removed == cat[..|r.removed|]
            && r.disk.entries == Without(d.entries, r.removed)
            && r.disk.locked == d.locked
            && (|r.removed| < Excess(|cat|, maxArchives) ==> RemoveItem(r.disk, cat[|r.removed|]).None?)
  {
    assert cat[..0] == [];
    WithoutNothing(d.entries);
    PruneFromPrefix(d, cat, 0, Excess(|cat|, maxArchives));
    PruneFromDisk(d, d, cat, 0, Excess(|cat|, maxArchives));
  }

  /** No catalogued path lies below an earlier one. */
  ghost predicate Unnested(cat: seq<Path>) {
    forall i, j :: 0 <= i < j < |cat| ==> !IsWithin(cat[j], cat[i])
  }

  /** When the oldest excess archives are all removable, every one of them
      is removed. */
  lemma PruneCompletes(d: Disk, cat: seq<Path>, maxArchives: nat)
    requires Unnested(cat)
    requires forall j :: 0 <= j < Excess(|cat|, maxArchives) ==> cat[j] in d.entries && cat[j] !in d.locked
    ensures Pruned(d, cat, maxArchives).removed == cat[..Excess(|cat|, maxArchives)]
  {
    PruneShape(d, cat, maxArchives);
    LaterArchivesSurvive(d, cat, maxArchives);
  }

  /** Removing a prefix of an unnested catalogue leaves the rest present. */
  lemma LaterArchivesSurvive(d: Disk, cat: seq<Path>, maxArchives: nat)
    requires Unnested(cat)
    ensures var r := Pruned(d, cat, maxArchives);
            forall j :: |r.removed| <= j < |cat| && cat[j] in d.entries ==> cat[j] in r.disk.entries
  {
    PruneShape(d, cat, maxArchives);
    var r := Pruned(d, cat, maxArchives);
    forall j | |r.removed| <= j < |cat| && cat[j] in d.entries ensures cat[j] in r.disk.entries {
      forall i | 0 <= i < |r.removed| ensures !IsWithin(cat[j], r.removed[i]) {
        assert r.removed[i] == cat[i];
      }
    }
  }

  /** Two different paths of the same depth do not contain each other. */
  lemma ApartAtSameDepth(p: Path, q: Path)
    requires |p| == |q| && p != q
    ensures !IsWithin(p, q)
  {
    assert p[..|q|] == p;
  }

  /** Distinct entries of one directory are never nested. */
  lemma SiblingsUnnested(cat: seq<Path>, dir: Path)
    requires Distinct(cat)
    requires forall p :: p in cat ==> IsChildOf(p, dir)
    ensures Unnested(cat)
  {
    forall i, j | 0 <= i < j < |cat| ensures !IsWithin(cat[j], cat[i]) {
      assert cat[i] in cat && cat[j] in cat;
      ApartAtSameDepth(cat[j], cat[i]);
    }
  }

  /** A catalogue is unnested. */
  lemma CatalogueUnnested(d: Disk, dir: Path, keep: Filter)
    ensures Unnested(Catalogue(d, dir, keep))
  {
    CatalogueOrdered(d, dir, keep);
    SiblingsUnnested(Catalogue(d, dir, keep), dir);
  }

  /** What is left after removing a prefix `removed` of the catalogue. */
  lemma KeptAfterRemoval(d: Disk, dir: Path, keep: Filter, removed: seq<Path>, d': Disk)
    requires IsDirectory(d, dir)
    requires forall p :: p in removed ==> IsChildOf(p, dir)
    requires d'.entries == Without(d.entries, removed)
    ensures IsDirectory(d', dir)
    ensures Kept(d', dir, keep) == Kept(d, dir, keep) - Elems(removed)
    ensures forall p :: p in Kept(d', dir, keep) ==> ModificationTime(d', p) == ModificationTime(d, p)
  {
    if dir != [] {
      forall j | 0 <= j < |removed| ensures !IsWithin(dir, removed[j]) {
        assert removed[j] in removed;
      }
    }
    forall p | p in Kept(d, dir, keep) - Elems(removed) ensures p in Kept(d', dir, keep) {
      forall j | 0 <= j < |removed| ensures !IsWithin(p, removed[j]) {
        assert removed[j] in removed;
        ApartAtSameDepth(p, removed[j]);
      }
    }
    forall p | p in Kept(d', dir, keep) ensures p !in Elems(removed) {
      forall j | 0 <= j < |removed| ensures removed[j] != p {
        assert removed[j][..|removed[j]|] == removed[j];
      }
    }
  }

  /** After `removeArchives`, the catalogue is what it was with the removed
      prefix dropped: the oldest go first and the order of the rest is kept. */
  lemma CatalogueAfterPrune(d: Disk, dir: Path, keep: Filter, maxArchives: nat)
    ensures var cat := Catalogue(d, dir, keep);
            var r := Pruned(d, cat, maxArchives);
            Catalogue(r.disk, dir, keep) == cat[|r.removed|..]
  {
    var cat := Catalogue(d, dir, keep);
    var r := Pruned(d, cat, maxArchives);
    PruneShape(d, cat, maxArchives);
    var k := |r.removed|;
    if IsDirectory(d, dir) {
      CatalogueIsOldestFirst(d, dir, keep);
      var s := Kept(d, dir, keep);
      forall p | p in r.removed ensures IsChildOf(p, dir) {
        assert p in cat;
      }
      KeptAfterRemoval(d, dir, keep, r.removed, r.disk);
      CatalogueIsOldestFirst(r.disk, dir, keep);
      assert r.removed == OldestFirst(d, s)[..k];
      OldestFirstAfterDrop(d, r.disk, s, Kept(r.disk, dir, keep), k);
    } else {
      assert cat == [];
    }
  }

  /** Dropping the `k` oldest of `s`, on a disk where the rest kept their
      modification times, leaves the rest in the order they had. */
  lemma OldestFirstAfterDrop(d: Disk, d': Disk, s: set<Path>, s': set<Path>, k: nat)
    requires k <= |s| && s' == s - Elems(OldestFirst(d, s)[..k])
    requires forall p :: p in s' ==> ModificationTime(d', p) == ModificationTime(d, p)
    ensures OldestFirst(d', s') == OldestFirst(d, s)[k..]
  {
    AgeOrderTotal(d);
    AgeOrderTotal(d');
    SortedByDrop(s, AgeOrder(d), k);
    SortedByCongruent(s', AgeOrder(d'), AgeOrder(d));
  }

  /** Consequently, when no removal throws, at most `maxArchives` archives are
      left, and exactly `min(count, maxArchives)`. */
  lemma PruneBoundsArchives(d: Disk, dir: Path, keep: Filter, maxArchives: nat)
    requires var cat := Catalogue(d, dir, keep);
             forall j :: 0 <= j < Excess(|cat|, maxArchives) ==> cat[j] !in d.locked
    ensures var cat := Catalogue(d, dir, keep);
            var r := Pruned(d, cat, maxArchives);
            && r.removed == cat[..Excess(|cat|, maxArchives)]
            && |Catalogue(r.disk, dir, keep)| == if |cat| <= maxArchives then |cat| else maxArchives
  {
    var cat := Catalogue(d, dir, keep);
    CatalogueUnnested(d, dir, keep);
    forall j | 0 <= j < Excess(|cat|, maxArchives) ensures cat[j] in d.entries {
      assert cat[j] in cat;
    }
    PruneCompletes(d, cat, maxArchives);
    CatalogueAfterPrune(d, dir, keep, maxArchives);
  }
}
