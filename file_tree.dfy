/**
 * The filesystem as the utilities see it, reduced to a value.
 *
 * A directory is a `Dir` node holding its entries in the order in which the
 * walker handles them: `readdir` followed by `natsort` is modelled by taking
 * the entry sequence to be in natural order already. Paths are strings that
 * use '/' as the directory separator; a child's path is its parent's path, a
 * separator and its name. Paths are taken to be canonical, so `realpath` is
 * the identity on them; the one exception is a walk from `/`, whose joined
 * paths start with `//`.
 */
module FileTree {

  datatype Node =
    | Dir(readable: bool, entries: seq<Entry>)  // a real directory, not a link
    | File
    | Link(toDir: bool)                         // a symbolic link; `toDir` when it points at a directory

  datatype Entry = Entry(name: string, node: Node)

  const Sep: char := '/'

  /** The path of entry `name` inside directory `dir`: `$sPath . DIRECTORY_SEPARATOR . $val`. */
  function Join(dir: string, name: string): string {
    dir + [Sep] + name
  }

  /** The pseudo-entries that the walker drops. */
  predicate Skipped(name: string) {
    name == "." || name == ".."
  }

  /** `is_dir($p) && !is_link($p)`: the walker descends into exactly these. */
  predicate IsRealDir(n: Node) {
    n.Dir?
  }

  predicate NoSep(s: string) {
    forall i :: 0 <= i < |s| ==> s[i] != Sep
  }

  /** Index of the last separator in `s`, or -1 when there is none. */
  function LastSep(s: string): (k: int)
    ensures -1 <= k < |s|
    ensures k >= 0 ==> s[k] == Sep
    ensures forall i :: k < i < |s| ==> s[i] != Sep
  {
    if s == [] then -1
    else if s[|s| - 1] == Sep then |s| - 1
    else LastSep(s[..|s| - 1])
  }

  /** The part of a path after its last separator (`basename` on paths without a trailing separator). */
  function Basename(p: string): (b: string)
    ensures NoSep(b)
    ensures |b| <= |p| && b == p[|p| - |b|..]
    ensures |b| < |p| ==> p[|p| - |b| - 1] == Sep
  {
    p[LastSep(p) + 1..]
  }

  lemma {:induction false} BasenameOfJoin(dir: string, name: string)
    requires NoSep(name)
    ensures Basename(Join(dir, name)) == name
  {
    var p := Join(dir, name);
    var k := LastSep(p);
    assert p[|dir|] == Sep;
    if k < |dir| {
      assert false;
    }
    assert p[|dir| + 1..] == name;
  }

  /** A name that `readdir` can return for a real entry. */
  predicate GoodName(name: string) {
    name != [] && NoSep(name) && !Skipped(name)
  }

  /** Names are good and pairwise distinct inside every directory, as on a real filesystem. */
  predicate WellNamed(n: Node)
    decreases n
  {
    n.Dir? ==>
      (forall i :: 0 <= i < |n.entries| ==> GoodName(n.entries[i].name) && WellNamed(n.entries[i].node)) &&
      (forall i, j :: 0 <= i < j < |n.entries| ==> n.entries[i].name != n.entries[j].name)
  }

  /** Every directory of the tree can be opened. */
  predicate FullyReadable(n: Node)
    decreases n
  {
    n.Dir? ==> n.readable && forall i :: 0 <= i < |n.entries| ==> FullyReadable(n.entries[i].node)
  }

  /** One node met on a walk, with the path at which it was met. */
  datatype Visit = Visit(path: string, node: Node)

  /**
   * The reference enumeration of a tree: every node, each before the nodes
   * below it, siblings in entry order. It ignores readability and depth.
   */
  function Preorder(path: string, n: Node): (vs: seq<Visit>)
    ensures |vs| > 0 && vs[0] == Visit(path, n)
    decreases n, 1
  {
    [Visit(path, n)] + (if n.Dir? then PreorderEntries(path, n.entries) else [])
  }

  function PreorderEntries(path: string, es: seq<Entry>): seq<Visit>
    decreases es, 0
  {
    if es == [] then []
    else
      var last := es[|es| - 1];
      PreorderEntries(path, es[..|es| - 1]) +
      (if Skipped(last.name) then [] else Preorder(Join(path, last.name), last.node))
  }

  /** The paths of the visits of real directories. */
  function DirPaths(vs: seq<Visit>): (ps: seq<string>)
    ensures |ps| <= |vs|
  {
    if vs == [] then []
    else DirPaths(vs[..|vs| - 1]) + (if vs[|vs| - 1].node.Dir? then [vs[|vs| - 1].path] else [])
  }

  /** The paths of the visits of everything else: files and links. */
  function OtherPaths(vs: seq<Visit>): (ps: seq<string>)
    ensures |ps| <= |vs|
  {
    if vs == [] then []
    else OtherPaths(vs[..|vs| - 1]) + (if vs[|vs| - 1].node.Dir? then [] else [vs[|vs| - 1].path])
  }

  lemma {:induction false} DirPathsAppend(a: seq<Visit>, b: seq<Visit>)
    ensures DirPaths(a + b) == DirPaths(a) + DirPaths(b)
    decreases |b|
  {
    if b == [] {
      assert a + b == a;
    } else {
      assert (a + b)[..|a + b| - 1] == a + b[..|b| - 1];
      DirPathsAppend(a, b[..|b| - 1]);
    }
  }

  lemma {:induction false} OtherPathsAppend(a: seq<Visit>, b: seq<Visit>)
    ensures OtherPaths(a + b) == OtherPaths(a) + OtherPaths(b)
    decreases |b|
  {
    if b == [] {
      assert a + b == a;
    } else {
      assert (a + b)[..|a + b| - 1] == a + b[..|b| - 1];
      OtherPathsAppend(a, b[..|b| - 1]);
    }
  }

  // ---------------------------------------------------------------------
  // Paths below a directory, and why a well-named tree has no path twice.
  // ---------------------------------------------------------------------

  /** Concatenation regrouped; stated once so that proofs need not rediscover it element by element. */
  lemma AppendAssoc<T>(a: seq<T>, b: seq<T>, c: seq<T>)
    ensures (a + b) + c == a + (b + c)
  {
  }

  predicate NoDup<T(==)>(s: seq<T>) {
    forall i, j :: 0 <= i < j < |s| ==> s[i] != s[j]
  }

  /** `q` lies strictly below the directory path `d`. */
  predicate Below(d: string, q: string) {
    d + [Sep] <= q
  }

  predicate AtOrBelow(d: string, q: string) {
    q == d || Below(d, q)
  }

  lemma BelowTransitive(a: string, b: string, c: string)
    requires Below(a, b) && Below(b, c)
    ensures Below(a, c)
  {
    assert c[..|a + [Sep]|] == b[..|a + [Sep]|];
  }

  function Paths(vs: seq<Visit>): (ps: seq<string>)
    ensures |ps| == |vs| && forall i :: 0 <= i < |vs| ==> ps[i] == vs[i].path
  {
    if vs == [] then [] else Paths(vs[..|vs| - 1]) + [vs[|vs| - 1].path]
  }

  lemma {:induction false} PathsAppend(a: seq<Visit>, b: seq<Visit>)
    ensures Paths(a + b) == Paths(a) + Paths(b)
  {
  }

  lemma NoDupAppend<T>(a: seq<T>, b: seq<T>)
    requires NoDup(a) && NoDup(b) && forall x :: x in a ==> x !in b
    ensures NoDup(a + b)
  {
    forall i, j | 0 <= i < j < |a + b|
      ensures (a + b)[i] != (a + b)[j]
    {
      if i < |a| && j >= |a| {
        assert (a + b)[i] in a && (a + b)[j] in b;
      }
    }
  }

  /** Two entries of one directory whose paths both lead to `q` have the same name. */
  lemma NamesSeparate(path: string, a: string, b: string, q: string)
    requires NoSep(a) && NoSep(b)
    requires AtOrBelow(Join(path, a), q) && AtOrBelow(Join(path, b), q)
    ensures a == b
  {
    var k := |path| + 1;
    assert Join(path, a) <= q && Join(path, b) <= q;
    assert k + |a| == |q| || q[k + |a|] == Sep;
    assert k + |b| == |q| || q[k + |b|] == Sep;
    assert forall i :: 0 <= i < |a| ==> q[k + i] == a[i];
    assert forall i :: 0 <= i < |b| ==> q[k + i] == b[i];
    assert |a| == |b|;
    assert a == q[k..k + |a|] == b;
  }

  /**
   * In a well-named tree every node has its own path, and every path lies at
   * or below the root's.
   */
  lemma {:induction false} PreorderDistinct(path: string, n: Node)
    requires WellNamed(n)
    ensures NoDup(Paths(Preorder(path, n)))
    ensures forall q :: q in Paths(Preorder(path, n)) ==> AtOrBelow(path, q)
    decreases n, 1
  {
    var rest := if n.Dir? then PreorderEntries(path, n.entries) else [];
    PathsAppend([Visit(path, n)], rest);
    if n.Dir? {
      PreorderEntriesDistinct(path, n.entries);
    }
    assert Paths([Visit(path, n)]) == [path];
    NoDupAppend([path], Paths(rest));
  }

  lemma {:induction false} PreorderEntriesDistinct(path: string, es: seq<Entry>)
    requires forall i :: 0 <= i < |es| ==> GoodName(es[i].name) && WellNamed(es[i].node)
    requires forall i, j :: 0 <= i < j < |es| ==> es[i].name != es[j].name
    ensures NoDup(Paths(PreorderEntries(path, es)))
    ensures forall q :: q in Paths(PreorderEntries(path, es)) ==>
              exists i :: 0 <= i < |es| && AtOrBelow(Join(path, es[i].name), q)
    ensures forall q :: q in Paths(PreorderEntries(path, es)) ==> Below(path, q)
    decreases es, 0
  {
    if es != [] {
      var init, e := es[..|es| - 1], es[|es| - 1];
      var p := Join(path, e.name);
      assert forall i :: 0 <= i < |init| ==> init[i] == es[i];
      PreorderEntriesDistinct(path, init);
      PreorderDistinct(p, e.node);
      var a, b := Paths(PreorderEntries(path, init)), Paths(Preorder(p, e.node));
      LastEntrySplits(path, es);
      LastEntrySeparate(path, es, a, b);
      NoDupAppend(a, b);
      assert Below(path, p);
      forall q | q in a + b
        ensures exists i :: 0 <= i < |es| && AtOrBelow(Join(path, es[i].name), q)
        ensures Below(path, q)
      {
        if q in a {
          var i :| 0 <= i < |init| && AtOrBelow(Join(path, init[i].name), q);
          assert AtOrBelow(Join(path, es[i].name), q);
        } else {
          assert AtOrBelow(Join(path, es[|es| - 1].name), q);
          if q != p {
            BelowTransitive(path, p, q);
          }
        }
      }
    }
  }

  /** The visits under a list of entries: those under all but the last, then those under the last. */
  lemma LastEntrySplits(path: string, es: seq<Entry>)
    requires es != [] && GoodName(es[|es| - 1].name)
    ensures var init, e := es[..|es| - 1], es[|es| - 1];
            Paths(PreorderEntries(path, es)) ==
              Paths(PreorderEntries(path, init)) + Paths(Preorder(Join(path, e.name), e.node))
  {
    var init, e := es[..|es| - 1], es[|es| - 1];
    PathsAppend(PreorderEntries(path, init), Preorder(Join(path, e.name), e.node));
  }

  /** No path below an earlier entry lies at or below the last one. */
  lemma LastEntrySeparate(path: string, es: seq<Entry>, a: seq<string>, b: seq<string>)
    requires es != []
    requires forall i :: 0 <= i < |es| ==> NoSep(es[i].name)
    requires forall i :: 0 <= i < |es| - 1 ==> es[i].name != es[|es| - 1].name
    requires forall q :: q in a ==> exists i :: 0 <= i < |es| - 1 && AtOrBelow(Join(path, es[i].name), q)
    requires forall q :: q in b ==> AtOrBelow(Join(path, es[|es| - 1].name), q)
    ensures forall q :: q in a ==> q !in b
  {
    forall q | q in a
      ensures q !in b
    {
      var i :| 0 <= i < |es| - 1 && AtOrBelow(Join(path, es[i].name), q);
      if q in b {
        NamesSeparate(path, es[i].name, es[|es| - 1].name, q);
      }
    }
  }
}
