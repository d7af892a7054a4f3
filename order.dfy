/** Total orders, lexicographic order on sequences, and the ascending
    enumeration of a finite set under a total order.

    Two places of the logger need a set turned into an ordered sequence:
    a directory catalogue (ascending modification time, ties in path order)
    and the serialised metadata of the log handler (ascending key order). */
module Order {

  /** `le` is a (non-strict) total order on T. */
  ghost predicate TotalOrder<T(!new)>(le: (T, T) -> bool) {
    && (forall a, b :: le(a, b) || le(b, a))
    && (forall a, b :: le(a, b) && le(b, a) ==> a == b)
    && (forall a, b, c :: le(a, b) && le(b, c) ==> le(a, c))
  }

  /** `lt` is a strict total order on T. */
  ghost predicate StrictTotalOrder<T(!new)>(lt: (T, T) -> bool) {
    && (forall a :: !lt(a, a))
    && (forall a, b :: a == b || lt(a, b) || lt(b, a))
    && (forall a, b, c :: lt(a, b) && lt(b, c) ==> lt(a, c))
  }

  predicate IsLeast<T>(le: (T, T) -> bool, m: T, s: set<T>) {
    m in s && forall y :: y in s ==> le(m, y)
  }

  ghost predicate Distinct<T>(r: seq<T>) {
    forall i, j :: 0 <= i < j < |r| ==> r[i] != r[j]
  }

  ghost predicate Ascending<T>(r: seq<T>, le: (T, T) -> bool) {
    forall i, j :: 0 <= i < j < |r| ==> le(r[i], r[j])
  }

  /** Lexicographic order on sequences, built from a strict order on elements. */
  predicate LexLe<T(==)>(a: seq<T>, b: seq<T>, lt: (T, T) -> bool)
    decreases |a|
  {
    |a| == 0 || (|b| > 0 && (lt(a[0], b[0]) || (a[0] == b[0] && LexLe(a[1..], b[1..], lt))))
  }

  lemma LeastExists<T(!new)>(le: (T, T) -> bool, s: set<T>)
    requires s != {} && TotalOrder(le)
    ensures exists m :: IsLeast(le, m, s)
  {
    var x :| x in s;
    if s == {x} {
      assert IsLeast(le, x, s);
    } else {
      LeastExists(le, s - {x});
      var m :| IsLeast(le, m, s - {x});
      if le(x, m) {
        assert IsLeast(le, x, s);
      } else {
        assert IsLeast(le, m, s);
      }
    }
  }

  /** The elements of `s` in ascending order under `le`. */
  function SortedBy<T(!new)>(s: set<T>, le: (T, T) -> bool): (r: seq<T>)
    requires TotalOrder(le)
    ensures |r| == |s|
    ensures forall x :: x in r <==> x in s
    decreases s
  {
    if s == {} then []
    else
      LeastExists(le, s);
      var m :| IsLeast(le, m, s);
      [m] + SortedBy(s - {m}, le)
  }

  /** The enumeration lists each element once, in ascending order. */
  lemma {:induction false} SortedByAscending<T(!new)>(s: set<T>, le: (T, T) -> bool)
    requires TotalOrder(le)
    ensures Distinct(SortedBy(s, le)) && Ascending(SortedBy(s, le), le)
    decreases s
  {
    if s != {} {
      SortedByUnfold(s, le);
      var r := SortedBy(s, le);
      var m := r[0];
      var rest := SortedBy(s - {m}, le);
      SortedByAscending(s - {m}, le);
      ConsAscending(r, m, rest, le);
    }
  }

  lemma ConsAscending<T>(r: seq<T>, m: T, rest: seq<T>, le: (T, T) -> bool)
    requires r == [m] + rest && Distinct(rest) && Ascending(rest, le)
    requires forall x :: x in rest ==> x != m && le(m, x)
    ensures Distinct(r) && Ascending(r, le)
  {
    forall i, j | 0 <= i < j < |r| ensures r[i] != r[j] && le(r[i], r[j]) {
      if i == 0 {
        assert r[j] == rest[j - 1] && rest[j - 1] in rest;
      } else {
        assert r[i] == rest[i - 1] && r[j] == rest[j - 1];
      }
    }
  }

  /** Two total orders that agree on `s` enumerate it identically. */
  lemma {:induction false} SortedByCongruent<T(!new)>(s: set<T>, le1: (T, T) -> bool, le2: (T, T) -> bool)
    requires TotalOrder(le1) && TotalOrder(le2)
    requires forall a, b :: a in s && b in s ==> le1(a, b) == le2(a, b)
    ensures SortedBy(s, le1) == SortedBy(s, le2)
    decreases s
  {
    if s != {} {
      LeastExists(le1, s);
      var m1 :| IsLeast(le1, m1, s);
      LeastExists(le2, s);
      var m2 :| IsLeast(le2, m2, s);
      assert IsLeast(le2, m1, s);
      assert le2(m1, m2) && le2(m2, m1);
      SortedByCongruent(s - {m1}, le1, le2);
    }
  }

  function Elems<T>(r: seq<T>): set<T> { set x | x in r }

  /** A listing of `s` without repeats, in ascending order, is the ascending
      enumeration of `s`. */
  lemma {:induction false} SortedByUnique<T(!new)>(s: set<T>, le: (T, T) -> bool, r: seq<T>)
    requires TotalOrder(le)
    requires Distinct(r) && Ascending(r, le) && forall x :: x in r <==> x in s
    ensures r == SortedBy(s, le)
    decreases |r|
  {
    if r == [] {
      EmptyListing(s, r);
    } else {
      UniqueHead(s, le, r);
      TailLists(s, le, r);
      SortedByUnique(s - {r[0]}, le, r[1..]);
      HeadAndTail(r);
    }
  }

  lemma HeadAndTail<T>(r: seq<T>)
    requires r != []
    ensures r == [r[0]] + r[1..]
  {
  }

  /** The first element of such a listing is the first of the enumeration. */
  lemma UniqueHead<T(!new)>(s: set<T>, le: (T, T) -> bool, r: seq<T>)
    requires TotalOrder(le) && r != []
    requires Ascending(r, le) && forall x :: x in r <==> x in s
    ensures SortedBy(s, le) == [r[0]] + SortedBy(s - {r[0]}, le)
  {
    assert r[0] in s;
    SortedByUnfold(s, le);
    SortedByHead(s, le);
    assert le(r[0], r[0]);
    HeadIsLeast(s, le, r);
    LeastUnique(le, r[0], SortedBy(s, le)[0], s);
  }

  lemma EmptyListing<T>(s: set<T>, r: seq<T>)
    requires r == [] && forall x :: x in r <==> x in s
    ensures s == {}
  {
    assert forall x :: x !in s;
  }

  lemma SortedByHead<T(!new)>(s: set<T>, le: (T, T) -> bool)
    requires TotalOrder(le) && s != {}
    ensures IsLeast(le, SortedBy(s, le)[0], s)
  {
    LeastExists(le, s);
    var m :| IsLeast(le, m, s);
    assert SortedBy(s, le) == [m] + SortedBy(s - {m}, le);
  }

  lemma LeastUnique<T(!new)>(le: (T, T) -> bool, a: T, b: T, s: set<T>)
    requires TotalOrder(le) && IsLeast(le, a, s) && IsLeast(le, b, s)
    ensures a == b
  {
    assert le(a, b) && le(b, a);
  }

  lemma HeadIsLeast<T>(s: set<T>, le: (T, T) -> bool, r: seq<T>)
    requires r != [] && le(r[0], r[0])
    requires Ascending(r, le) && forall x :: x in r <==> x in s
    ensures IsLeast(le, r[0], s)
  {
    forall y | y in s ensures le(r[0], y) {
      var j :| 0 <= j < |r| && r[j] == y;
    }
  }

  lemma TailLists<T>(s: set<T>, le: (T, T) -> bool, r: seq<T>)
    requires r != []
    requires Distinct(r) && Ascending(r, le) && forall x :: x in r <==> x in s
    ensures Distinct(r[1..]) && Ascending(r[1..], le)
    ensures forall x :: x in r[1..] <==> x in s - {r[0]}
  {
    var rest := r[1..];
    forall x ensures x in rest <==> x in s - {r[0]} {
      if x in rest {
        var j :| 0 <= j < |rest| && rest[j] == x;
        assert r[j + 1] == x;
      }
      if x in s - {r[0]} {
        var j :| 0 <= j < |r| && r[j] == x;
        assert rest[j - 1] == x;
      }
    }
  }

  lemma ConsSlices<T>(r: seq<T>, m: T, rest: seq<T>, k: nat, s: set<T>)
    requires r == [m] + rest && 1 <= k <= |r|
    ensures r[k..] == rest[k - 1..]
    ensures s - Elems(r[..k]) == (s - {m}) - Elems(rest[..k - 1])
  {
    assert r[..k] == [m] + rest[..k - 1];
    assert Elems(r[..k]) == {m} + Elems(rest[..k - 1]);
  }

  /** The first element of the enumeration is the least one, and the rest
      enumerates what remains. */
  lemma SortedByUnfold<T(!new)>(s: set<T>, le: (T, T) -> bool)
    requires TotalOrder(le) && s != {}
    ensures SortedBy(s, le) == [SortedBy(s, le)[0]] + SortedBy(s - {SortedBy(s, le)[0]}, le)
  {
    LeastExists(le, s);
    var m :| IsLeast(le, m, s);
    assert SortedBy(s, le) == [m] + SortedBy(s - {m}, le);
  }

  /** The ascending enumeration of a set with its `k` least elements taken away
      is the ascending enumeration of the whole set with its first `k` dropped. */
  lemma {:induction false} SortedByDrop<T(!new)>(s: set<T>, le: (T, T) -> bool, k: nat)
    requires TotalOrder(le) && k <= |s|
    ensures SortedBy(s - Elems(SortedBy(s, le)[..k]), le) == SortedBy(s, le)[k..]
    decreases k
  {
    var r := SortedBy(s, le);
    if k == 0 {
      DropNothing(s, r);
    } else {
      SortedByUnfold(s, le);
      var m := r[0];
      var rest := SortedBy(s - {m}, le);
      ConsSlices(r, m, rest, k, s);
      SortedByDrop(s - {m}, le, k - 1);
    }
  }

  lemma DropNothing<T>(s: set<T>, r: seq<T>)
    ensures s - Elems(r[..0]) == s && r[0..] == r
  {
    assert Elems(r[..0]) == {};
  }

  lemma {:induction false} LexTotal<T(!new)>(a: seq<T>, b: seq<T>, lt: (T, T) -> bool)
    requires StrictTotalOrder(lt)
    ensures LexLe(a, b, lt) || LexLe(b, a, lt)
    decreases |a|
  {
    if |a| > 0 && |b| > 0 && a[0] == b[0] {
      LexTotal(a[1..], b[1..], lt);
    }
  }

  lemma {:induction false} LexAntisymmetric<T(!new)>(a: seq<T>, b: seq<T>, lt: (T, T) -> bool)
    requires StrictTotalOrder(lt)
    requires LexLe(a, b, lt) && LexLe(b, a, lt)
    ensures a == b
    decreases |a|
  {
    if |a| > 0 {
      assert |b| > 0;
      if a[0] == b[0] {
        LexAntisymmetric(a[1..], b[1..], lt);
        assert a == [a[0]] + a[1..] && b == [b[0]] + b[1..];
      }
    }
  }

  lemma {:induction false} LexTransitive<T(!new)>(a: seq<T>, b: seq<T>, c: seq<T>, lt: (T, T) -> bool)
    requires StrictTotalOrder(lt)
    requires LexLe(a, b, lt) && LexLe(b, c, lt)
    ensures LexLe(a, c, lt)
    decreases |a|
  {
    if |a| > 0 {
      assert |b| > 0 && |c| > 0;
      if a[0] == b[0] && b[0] == c[0] {
        LexTransitive(a[1..], b[1..], c[1..], lt);
      }
    }
  }

  /** Character order, as Swift compares the strings of this model. */
  predicate CharLt(a: char, b: char) { a < b }

  predicate StrLe(a: string, b: string) { LexLe(a, b, CharLt) }

  predicate StrLt(a: string, b: string) { StrLe(a, b) && a != b }

  /** Path order: lexicographic over components, each compared as a string. */
  predicate PathLe(a: seq<string>, b: seq<string>) { LexLe(a, b, StrLt) }

  lemma StrLeTotalOrder()
    ensures TotalOrder(StrLe)
  {
    assert StrictTotalOrder(CharLt);
    forall a, b ensures StrLe(a, b) || StrLe(b, a) {
      LexTotal(a, b, CharLt);
    }
    forall a, b | StrLe(a, b) && StrLe(b, a) ensures a == b {
      LexAntisymmetric(a, b, CharLt);
    }
    forall a, b, c | StrLe(a, b) && StrLe(b, c) ensures StrLe(a, c) {
      LexTransitive(a, b, c, CharLt);
    }
  }

  lemma StrLtStrict()
    ensures StrictTotalOrder(StrLt)
  {
    StrLeTotalOrder();
  }

  lemma PathLeTotalOrder()
    ensures TotalOrder(PathLe)
  {
    StrLtStrict();
    forall a, b ensures PathLe(a, b) || PathLe(b, a) {
      LexTotal(a, b, StrLt);
    }
    forall a, b | PathLe(a, b) && PathLe(b, a) ensures a == b {
      LexAntisymmetric(a, b, StrLt);
    }
    forall a, b, c | PathLe(a, b) && PathLe(b, c) ensures PathLe(a, c) {
      LexTransitive(a, b, c, StrLt);
    }
  }
}
