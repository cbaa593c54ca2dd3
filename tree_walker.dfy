/**
 * The directory walker `_dirToStruct`: a directory becomes a listing of the
 * directories it holds (`dirs`) and of everything else (`files`).
 */
module TreeWalker {
  import opened FileTree

  /** `array('dirs' => ..., 'files' => ...)`. */
  datatype Listing = Listing(dirs: seq<string>, files: seq<string>)

  const Empty: Listing := Listing([], [])

  /** `array_merge_recursive($a, $b)` on two listings: each list of `a` followed by the same list of `b`. */
  function MergeRecursive(a: Listing, b: Listing): Listing {
    Listing(a.dirs + b.dirs, a.files + b.files)
  }

  /** `@opendir($sPath)` succeeds. */
  predicate Opens(n: Node) {
    n.Dir? && n.readable
  }

  /** The guard `$aktinst < $maxinst || $maxinst == 0` around the whole child loop. */
  predicate Descends(maxinst: int, aktinst: int) {
    aktinst < maxinst || maxinst == 0
  }

  /**
   * The listing of the node `n` found at `path`, walked at depth `aktinst`
   * with depth limit `maxinst` (0 for none).
   */
  function Walk(path: string, n: Node, maxinst: int, aktinst: int): (l: Listing)
    ensures !Opens(n) ==> l == Empty
    ensures Opens(n) ==> |l.dirs| > 0 && l.dirs[0] == path
    decreases n, 1
  {
    if !Opens(n) then Empty
    else
      MergeRecursive(Listing([path], []),
                     if Descends(maxinst, aktinst) then WalkEntries(path, n.entries, maxinst, aktinst) else Empty)
  }

  /** What the child loop contributes for the entries `es` of the directory at `path`. */
  function WalkEntries(path: string, es: seq<Entry>, maxinst: int, aktinst: int): Listing
    decreases es, 0
  {
    if es == [] then Empty
    else MergeRecursive(WalkEntries(path, es[..|es| - 1], maxinst, aktinst),
                        Child(path, es[|es| - 1], maxinst, aktinst))
  }

  /** One pass of the child loop: recurse into a real directory, record anything else as a file. */
  function Child(path: string, e: Entry, maxinst: int, aktinst: int): Listing
    decreases e, 2
  {
    if Skipped(e.name) then Empty
    else if IsRealDir(e.node) then Walk(Join(path, e.name), e.node, maxinst, aktinst + 1)
    else Listing([], [Join(path, e.name)])
  }

  /** The paths for which the walk raises "Could not open dir", in the order it meets them. */
  function Unopened(path: string, n: Node, maxinst: int, aktinst: int): seq<string>
    decreases n, 1
  {
    if !Opens(n) then [path]
    else if Descends(maxinst, aktinst) then UnopenedEntries(path, n.entries, maxinst, aktinst)
    else []
  }

  function UnopenedEntries(path: string, es: seq<Entry>, maxinst: int, aktinst: int): seq<string>
    decreases es, 0
  {
    if es == [] then []
    else
      var e := es[|es| - 1];
      UnopenedEntries(path, es[..|es| - 1], maxinst, aktinst) +
      (if Skipped(e.name) || !IsRealDir(e.node) then [] else Unopened(Join(path, e.name), e.node, maxinst, aktinst + 1))
  }

  /** The entries the `readdir` loop keeps in `$list`. */
  function Listed(es: seq<Entry>): (r: seq<Entry>)
    ensures forall x :: x in r ==> x in es && !Skipped(x.name)
  {
    if es == [] then []
    else Listed(es[..|es| - 1]) + (if Skipped(es[|es| - 1].name) then [] else [es[|es| - 1]])
  }

  lemma {:induction false} WalkListed(path: string, es: seq<Entry>, maxinst: int, aktinst: int)
    ensures WalkEntries(path, Listed(es), maxinst, aktinst) == WalkEntries(path, es, maxinst, aktinst)
  {
    if es != [] {
      var init, e := es[..|es| - 1], es[|es| - 1];
      WalkListed(path, init, maxinst, aktinst);
      if Skipped(e.name) {
        assert Listed(es) == Listed(init);
        assert WalkEntries(path, es, maxinst, aktinst) == MergeRecursive(WalkEntries(path, init, maxinst, aktinst), Empty);
      } else {
        var l := Listed(init) + [e];
        assert Listed(es) == l;
        assert l[..|l| - 1] == Listed(init);
        assert WalkEntries(path, l, maxinst, aktinst) ==
               MergeRecursive(WalkEntries(path, Listed(init), maxinst, aktinst), Child(path, e, maxinst, aktinst));
      }
    }
  }

  lemma {:induction false} UnopenedListed(path: string, es: seq<Entry>, maxinst: int, aktinst: int)
    ensures UnopenedEntries(path, Listed(es), maxinst, aktinst) == UnopenedEntries(path, es, maxinst, aktinst)
  {
    if es != [] {
      var init, e := es[..|es| - 1], es[|es| - 1];
      UnopenedListed(path, init, maxinst, aktinst);
      if Skipped(e.name) {
        assert Listed(es) == Listed(init);
        assert UnopenedEntries(path, es, maxinst, aktinst) == UnopenedEntries(path, init, maxinst, aktinst) + [];
      } else {
        var l := Listed(init) + [e];
        assert Listed(es) == l;
        assert l[..|l| - 1] == Listed(init);
      }
    }
  }

  /**
   * `_dirToStruct($sPath, $maxinst, $aktinst, $silent)`. The warnings the
   * source raises are returned as the list of paths it could not open.
   */
  method DirToStruct(sPath: string, n: Node, maxinst: int, aktinst: int, silent: bool)
    returns (l: Listing, warnings: seq<string>)
    ensures l == Walk(sPath, n, maxinst, aktinst)
    ensures warnings == if silent then [] else Unopened(sPath, n, maxinst, aktinst)
    decreases n, 1
  {
    if !Opens(n) {
      l := Empty;
      warnings := if silent then [] else [sPath];
      return;
    }
    var list := ReadEntries(n.entries);
    WalkListed(sPath, n.entries, maxinst, aktinst);
    UnopenedListed(sPath, n.entries, maxinst, aktinst);
    if Descends(maxinst, aktinst) {
      var sub;
      sub, warnings := ChildLoop(sPath, n, list, maxinst, aktinst, silent);
      l := MergeRecursive(Listing([sPath], []), sub);
    } else {
      l := Listing([sPath], []);
      warnings := [];
    }
  }

  /** The `readdir` loop of `_dirToStruct`: every entry but "." and "..", in directory order. */
  method ReadEntries(es: seq<Entry>) returns (list: seq<Entry>)
    ensures list == Listed(es)
  {
    list := [];
    var j := 0;
    while j < |es|
      invariant 0 <= j <= |es|
      invariant list == Listed(es[..j])
    {
      ListedSnoc(es, j);
      if !Skipped(es[j].name) {
        list := list + [es[j]];
      }
      j := j + 1;
    }
    assert es[..j] == es;
  }

  lemma ListedSnoc(es: seq<Entry>, j: int)
    requires 0 <= j < |es|
    ensures Listed(es[..j + 1]) == Listed(es[..j]) + (if Skipped(es[j].name) then [] else [es[j]])
  {
    assert es[..j + 1][..j] == es[..j];
  }

  /** The `foreach ($list as $val)` loop of `_dirToStruct`, over the entries of `n` kept in `list`. */
  method ChildLoop(sPath: string, ghost n: Node, list: seq<Entry>, maxinst: int, aktinst: int, silent: bool)
    returns (l: Listing, warnings: seq<string>)
    requires n.Dir? && forall x :: x in list ==> x in n.entries && !Skipped(x.name)
    ensures l == WalkEntries(sPath, list, maxinst, aktinst)
    ensures warnings == if silent then [] else UnopenedEntries(sPath, list, maxinst, aktinst)
    decreases n, 0
  {
    var dirs, files := [], [];
    warnings := [];
    var i := 0;
    while i < |list|
      invariant 0 <= i <= |list|
      invariant Listing(dirs, files) == WalkEntries(sPath, list[..i], maxinst, aktinst)
      invariant warnings == if silent then [] else UnopenedEntries(sPath, list[..i], maxinst, aktinst)
    {
      var e := list[i];
      assert e in n.entries;
      assert list[..i + 1][..i] == list[..i];
      var path := Join(sPath, e.name);
      if IsRealDir(e.node) {
        var tmp, w := DirToStruct(path, e.node, maxinst, aktinst + 1, silent);
        dirs, files := dirs + tmp.dirs, files + tmp.files;
        warnings := warnings + w;
      } else {
        files := files + [path];
      }
      i := i + 1;
    }
    assert list[..i] == list;
    l := Listing(dirs, files);
  }

  /** A fully readable tree raises no warning. */
  lemma {:induction false} ReadableNoWarnings(path: string, n: Node, maxinst: int, aktinst: int)
    requires FullyReadable(n) && n.Dir?
    ensures Unopened(path, n, maxinst, aktinst) == []
    decreases n, 1
  {
    if Descends(maxinst, aktinst) {
      ReadableEntriesNoWarnings(path, n.entries, maxinst, aktinst);
    }
  }

  lemma {:induction false} ReadableEntriesNoWarnings(path: string, es: seq<Entry>, maxinst: int, aktinst: int)
    requires forall i :: 0 <= i < |es| ==> FullyReadable(es[i].node)
    ensures UnopenedEntries(path, es, maxinst, aktinst) == []
    decreases es, 0
  {
    if es != [] {
      ReadableEntriesNoWarnings(path, es[..|es| - 1], maxinst, aktinst);
      var e := es[|es| - 1];
      if !Skipped(e.name) && IsRealDir(e.node) {
        ReadableNoWarnings(Join(path, e.name), e.node, maxinst, aktinst + 1);
      }
    }
  }

  // ---------------------------------------------------------------------
  // The unbounded walk of a readable tree is its pre-order, split by kind.
  // ---------------------------------------------------------------------

  /**
   * With no depth limit, on a tree whose directories all open, `dirs` lists
   * every real directory (the root first) and `files` every other node,
   * both in the one pre-order of the tree.
   */
  lemma {:induction false} WalkIsPreorder(path: string, n: Node, aktinst: int)
    requires FullyReadable(n) && n.Dir?
    ensures Walk(path, n, 0, aktinst) == Listing(DirPaths(Preorder(path, n)), OtherPaths(Preorder(path, n)))
    decreases n, 1
  {
    WalkEntriesIsPreorder(path, n.entries, aktinst);
    DirPathsAppend([Visit(path, n)], PreorderEntries(path, n.entries));
    OtherPathsAppend([Visit(path, n)], PreorderEntries(path, n.entries));
    assert DirPaths([Visit(path, n)]) == [path] by {
      assert [Visit(path, n)][..0] == [];
    }
    assert OtherPaths([Visit(path, n)]) == [] by {
      assert [Visit(path, n)][..0] == [];
    }
  }

  lemma {:induction false} WalkEntriesIsPreorder(path: string, es: seq<Entry>, aktinst: int)
    requires forall i :: 0 <= i < |es| ==> FullyReadable(es[i].node)
    ensures WalkEntries(path, es, 0, aktinst) ==
            Listing(DirPaths(PreorderEntries(path, es)), OtherPaths(PreorderEntries(path, es)))
    decreases es, 0
  {
    if es != [] {
      var init, e := es[..|es| - 1], es[|es| - 1];
      WalkEntriesIsPreorder(path, init, aktinst);
      if !Skipped(e.name) {
        var p := Join(path, e.name);
        var sub := Preorder(p, e.node);
        DirPathsAppend(PreorderEntries(path, init), sub);
        OtherPathsAppend(PreorderEntries(path, init), sub);
        assert PreorderEntries(path, es) == PreorderEntries(path, init) + sub;
        if IsRealDir(e.node) {
          WalkIsPreorder(p, e.node, aktinst + 1);
        } else {
          assert sub == [Visit(p, e.node)];
          assert sub[..0] == [];
        }
      } else {
        assert PreorderEntries(path, es) == PreorderEntries(path, init) + [] == PreorderEntries(path, init);
        var w := WalkEntries(path, init, 0, aktinst);
        assert WalkEntries(path, es, 0, aktinst) == MergeRecursive(w, Empty) == w;
      }
    }
  }

  // ---------------------------------------------------------------------
  // Membership in a bounded walk of any tree.
  // ---------------------------------------------------------------------

  /**
   * `q` is the path of the node `m` found `d` levels below the node `n` at
   * `path`, through directories that all open.
   */
  ghost predicate Reaches(path: string, n: Node, q: string, m: Node, d: nat)
    decreases n, 1
  {
    if d == 0 then q == path && m == n
    else Opens(n) && ReachesVia(path, n.entries, q, m, d - 1)
  }

  ghost predicate ReachesVia(path: string, es: seq<Entry>, q: string, m: Node, d: nat)
    decreases es, 0
  {
    es != [] &&
    (ReachesVia(path, es[..|es| - 1], q, m, d) ||
     (!Skipped(es[|es| - 1].name) && Reaches(Join(path, es[|es| - 1].name), es[|es| - 1].node, q, m, d)))
  }

  /** A node `d` levels below a walk started at depth `aktinst` is within the limit `maxinst`. */
  predicate Within(maxinst: int, aktinst: int, d: nat) {
    d == 0 || maxinst == 0 || aktinst + d <= maxinst
  }

  lemma {:induction false} DirsSound(path: string, n: Node, k: int, a: int, q: string) returns (m: Node, d: nat)
    requires q in Walk(path, n, k, a).dirs
    ensures Reaches(path, n, q, m, d) && Opens(m) && Within(k, a, d)
    decreases n, 1
  {
    if q == path {
      m, d := n, 0;
    } else {
      var m', d' := EntriesDirsSound(path, n.entries, k, a, q);
      m, d := m', d' + 1;
    }
  }

  lemma {:induction false} EntriesDirsSound(path: string, es: seq<Entry>, k: int, a: int, q: string) returns (m: Node, d: nat)
    requires q in WalkEntries(path, es, k, a).dirs
    ensures ReachesVia(path, es, q, m, d) && Opens(m) && Within(k, a + 1, d)
    decreases es, 0
  {
    var init, e := es[..|es| - 1], es[|es| - 1];
    if q in WalkEntries(path, init, k, a).dirs {
      m, d := EntriesDirsSound(path, init, k, a, q);
    } else {
      m, d := DirsSound(Join(path, e.name), e.node, k, a + 1, q);
    }
  }

  lemma {:induction false} DirsComplete(path: string, n: Node, k: int, a: int, q: string, m: Node, d: nat)
    requires Reaches(path, n, q, m, d) && Opens(m) && Within(k, a, d)
    ensures q in Walk(path, n, k, a).dirs
    decreases n, 1
  {
    if d > 0 {
      EntriesDirsComplete(path, n.entries, k, a, q, m, d - 1);
    }
  }

  lemma {:induction false} EntriesDirsComplete(path: string, es: seq<Entry>, k: int, a: int, q: string, m: Node, d: nat)
    requires ReachesVia(path, es, q, m, d) && Opens(m) && Within(k, a + 1, d)
    ensures q in WalkEntries(path, es, k, a).dirs
    decreases es, 0
  {
    var init, e := es[..|es| - 1], es[|es| - 1];
    if ReachesVia(path, init, q, m, d) {
      EntriesDirsComplete(path, init, k, a, q, m, d);
    } else {
      if d == 0 {
        assert IsRealDir(e.node);
      }
      DirsComplete(Join(path, e.name), e.node, k, a + 1, q, m, d);
    }
  }

  lemma {:induction false} FilesSound(path: string, n: Node, k: int, a: int, q: string) returns (m: Node, d: nat)
    requires q in Walk(path, n, k, a).files
    ensures Reaches(path, n, q, m, d) && d > 0 && !m.Dir? && Within(k, a, d)
    decreases n, 1
  {
    var m', d' := EntriesFilesSound(path, n.entries, k, a, q);
    m, d := m', d' + 1;
  }

  lemma {:induction false} EntriesFilesSound(path: string, es: seq<Entry>, k: int, a: int, q: string) returns (m: Node, d: nat)
    requires q in WalkEntries(path, es, k, a).files
    ensures ReachesVia(path, es, q, m, d) && !m.Dir? && Within(k, a + 1, d)
    decreases es, 0
  {
    var init, e := es[..|es| - 1], es[|es| - 1];
    if q in WalkEntries(path, init, k, a).files {
      m, d := EntriesFilesSound(path, init, k, a, q);
    } else if IsRealDir(e.node) {
      m, d := FilesSound(Join(path, e.name), e.node, k, a + 1, q);
    } else {
      m, d := e.node, 0;
    }
  }

  lemma {:induction false} FilesComplete(path: string, n: Node, k: int, a: int, q: string, m: Node, d: nat)
    requires Reaches(path, n, q, m, d) && d > 0 && !m.Dir? && Within(k, a, d)
    ensures q in Walk(path, n, k, a).files
    decreases n, 1
  {
    EntriesFilesComplete(path, n.entries, k, a, q, m, d - 1);
  }

  lemma {:induction false} EntriesFilesComplete(path: string, es: seq<Entry>, k: int, a: int, q: string, m: Node, d: nat)
    requires ReachesVia(path, es, q, m, d) && !m.Dir? && Within(k, a + 1, d)
    ensures q in WalkEntries(path, es, k, a).files
    decreases es, 0
  {
    var init, e := es[..|es| - 1], es[|es| - 1];
    if ReachesVia(path, init, q, m, d) {
      EntriesFilesComplete(path, init, k, a, q, m, d);
    } else if d > 0 {
      FilesComplete(Join(path, e.name), e.node, k, a + 1, q, m, d);
    }
  }

  /**
   * What a walk lists, for any tree and any depth limit: a directory is in
   * `dirs` exactly when it opens and is reached within the limit through
   * directories that open; `files` holds exactly the files and links reached
   * that way below the root. An unreadable directory and everything under it
   * is therefore listed nowhere.
   */
  lemma WalkMembers(path: string, n: Node, maxinst: int, aktinst: int, q: string)
    ensures q in Walk(path, n, maxinst, aktinst).dirs <==>
            exists m, d :: Reaches(path, n, q, m, d) && Opens(m) && Within(maxinst, aktinst, d)
    ensures q in Walk(path, n, maxinst, aktinst).files <==>
            exists m, d :: Reaches(path, n, q, m, d) && d > 0 && !m.Dir? && Within(maxinst, aktinst, d)
  {
    if q in Walk(path, n, maxinst, aktinst).dirs {
      var m, d := DirsSound(path, n, maxinst, aktinst, q);
    }
    if q in Walk(path, n, maxinst, aktinst).files {
      var m, d := FilesSound(path, n, maxinst, aktinst, q);
    }
    forall m, d | Reaches(path, n, q, m, d) && Opens(m) && Within(maxinst, aktinst, d) {
      DirsComplete(path, n, maxinst, aktinst, q, m, d);
    }
    forall m, d | Reaches(path, n, q, m, d) && d > 0 && !m.Dir? && Within(maxinst, aktinst, d) {
      FilesComplete(path, n, maxinst, aktinst, q, m, d);
    }
  }

  /**
   * With a positive limit `k`, a walk from depth 0 lists a node reached at
   * depth `d` when `d <= k`, and lists nothing that is reached only deeper:
   * a directory at depth `k` is in `dirs` but none of its children appear.
   */
  lemma DepthLimit(path: string, n: Node, k: int, q: string, m: Node, d: nat)
    requires k > 0 && Reaches(path, n, q, m, d)
    ensures d <= k && Opens(m) ==> q in Walk(path, n, k, 0).dirs
    ensures d <= k && d > 0 && !m.Dir? ==> q in Walk(path, n, k, 0).files
    ensures q in Walk(path, n, k, 0).dirs + Walk(path, n, k, 0).files ==>
            exists m': Node, d': nat :: d' <= k && Reaches(path, n, q, m', d')
  {
    if d <= k && Opens(m) {
      DirsComplete(path, n, k, 0, q, m, d);
    }
    if d <= k && d > 0 && !m.Dir? {
      FilesComplete(path, n, k, 0, q, m, d);
    }
    if q in Walk(path, n, k, 0).dirs {
      var m', d' := DirsSound(path, n, k, 0, q);
    } else if q in Walk(path, n, k, 0).files {
      var m', d' := FilesSound(path, n, k, 0, q);
    }
  }
}
