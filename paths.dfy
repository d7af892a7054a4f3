/** File URLs as sequences of path components, with the Foundation URL
    operations the loggers use: appending and deleting the last component,
    appending a path extension and deleting the last one. */
module Paths {

  /** A file URL: the components below the filesystem root. `[]` is the root. */
  type Path = seq<string>

  /** `url.appendingPathComponent(name)` */
  function Child(dir: Path, name: string): (p: Path)
    ensures |p| == |dir| + 1 && Parent(p) == dir && p[|dir|] == name
  {
    dir + [name]
  }

  /** `url.deletingLastPathComponent()`; the root is its own parent. */
  function Parent(p: Path): Path {
    if p == [] then [] else p[..|p| - 1]
  }

  /** `p` is an immediate entry of directory `dir`. */
  predicate IsChildOf(p: Path, dir: Path) {
    |p| == |dir| + 1 && p[..|dir|] == dir
  }

  /** `p` is `root` itself or lies somewhere below it. */
  predicate IsWithin(p: Path, root: Path) {
    |root| <= |p| && p[..|root|] == root
  }

  /** Index of the last '.' in `c`, or -1 when there is none. */
  function LastDot(c: string): (i: int)
    ensures -1 <= i < |c|
    ensures i >= 0 ==> c[i] == '.' && '.' !in c[i + 1..]
    ensures i == -1 ==> '.' !in c
  {
    if c == [] then -1
    else if c[|c| - 1] == '.' then |c| - 1
    else
      var i := LastDot(c[..|c| - 1]);
      assert c == c[..|c| - 1] + [c[|c| - 1]];
      i
  }

  /** A component without its extension. A leading dot starts a hidden name,
      not an extension, so ".log" keeps its name. */
  function StripExtension(c: string): string {
    var i := LastDot(c);
    if i > 0 then c[..i] else c
  }

  /** `url.appendingPathExtension(ext)`: the last component becomes `name.ext`. */
  function AppendingExtension(p: Path, ext: string): Path {
    if p == [] then [] else Parent(p) + [p[|p| - 1] + "." + ext]
  }

  /** `url.deletingPathExtension()` */
  function DeletingExtension(p: Path): Path {
    if p == [] then [] else Parent(p) + [StripExtension(p[|p| - 1])]
  }

  /** Decimal rendering of a generation number, as Swift's string interpolation. */
  function Decimal(n: nat): string
    decreases n
  {
    if n < 10 then [DigitChar(n)] else Decimal(n / 10) + [DigitChar(n % 10)]
  }

  /** The character of a decimal digit: '0' to '9'. */
  function DigitChar(d: nat): char
    requires d < 10
  {
    ('0' as int + d) as char
  }

  lemma {:induction false} LastDotAfterAppend(c: string, ext: string)
    requires '.' !in ext
    ensures LastDot(c + "." + ext) == |c|
    decreases |ext|
  {
    var s := c + "." + ext;
    if ext == [] {
      assert s[|s| - 1] == '.';
    } else {
      assert s[|s| - 1] == ext[|ext| - 1] != '.';
      assert s[..|s| - 1] == c + "." + ext[..|ext| - 1];
      LastDotAfterAppend(c, ext[..|ext| - 1]);
    }
  }

  /** Deleting an extension undoes appending one, provided the extension has no
      dot and the last component is a non-empty name. */
  lemma ExtensionRoundTrip(p: Path, ext: string)
    requires p != [] && p[|p| - 1] != "" && '.' !in ext
    ensures DeletingExtension(AppendingExtension(p, ext)) == p
  {
    var c := p[|p| - 1];
    LastDotAfterAppend(c, ext);
    assert (c + "." + ext)[..|c|] == c;
    var q := AppendingExtension(p, ext);
    assert Parent(q) == Parent(p);
    assert p == Parent(p) + [c];
  }

  /** Both operations keep the directory and the number of components. */
  lemma ExtensionKeepsDirectory(p: Path, ext: string)
    ensures |AppendingExtension(p, ext)| == |p| && Parent(AppendingExtension(p, ext)) == Parent(p)
    ensures |DeletingExtension(p)| == |p| && Parent(DeletingExtension(p)) == Parent(p)
  {
  }

  lemma {:induction false} DecimalFacts(n: nat)
    ensures |Decimal(n)| >= 1
    ensures (|Decimal(n)| == 1) == (n < 10)
    ensures '.' !in Decimal(n)
    decreases n
  {
    if n >= 10 {
      DecimalFacts(n / 10);
    }
  }

  /** Distinct generation numbers render as distinct strings. */
  lemma {:induction false} DecimalInjective(a: nat, b: nat)
    requires Decimal(a) == Decimal(b)
    ensures a == b
    decreases a
  {
    DecimalFacts(a);
    DecimalFacts(b);
    if a >= 10 && b >= 10 {
      var da, db := Decimal(a), Decimal(b);
      assert DigitChar(a % 10) == da[|da| - 1] == db[|db| - 1] == DigitChar(b % 10);
      assert a % 10 == b % 10;
      assert Decimal(a / 10) == da[..|da| - 1] == db[..|db| - 1] == Decimal(b / 10);
      DecimalInjective(a / 10, b / 10);
    }
  }

  /** Appending two different extensions gives two different paths, and
      neither is the original path. */
  lemma AppendingExtensionInjective(p: Path, a: string, b: string)
    requires p != []
    ensures AppendingExtension(p, a) != p
    ensures AppendingExtension(p, a) == AppendingExtension(p, b) ==> a == b
  {
    var c := p[|p| - 1];
    var ca, cb := c + "." + a, c + "." + b;
    assert AppendingExtension(p, a)[|p| - 1] == ca;
    assert AppendingExtension(p, b)[|p| - 1] == cb;
    assert a == ca[|c| + 1..];
    assert b == cb[|c| + 1..];
  }
}
