/**
 * `rm`: deletes files with `unlink` and directories with `rmdir`, keeps going
 * after a failure, and reports whether every deletion succeeded.
 *
 * The effect of a deletion is modelled on a flat view of the filesystem: what
 * kind of entry sits at each path, and which paths the system refuses to
 * delete (permissions, busy files). `unlink` removes anything but a
 * directory; `rmdir` removes a directory that has nothing left below it.
 */
module Remover {
  import opened FileTree
  import opened TreeWalker
  import opened StructMerger
  import opened PathOrder
  import Errors

  datatype Kind = DirKind | FileKind | LinkKind(toDir: bool)

  datatype Disk = Disk(entries: map<string, Kind>, locked: set<string>)

  /** `is_dir($p)` on the disk; it follows links. */
  predicate IsDirOnDisk(disk: Disk, p: string) {
    p in disk.entries && (disk.entries[p] == DirKind || disk.entries[p] == LinkKind(true))
  }

  datatype Op = Unlink(path: string) | Rmdir(path: string)

  datatype Attempt = Attempt(op: Op, ok: bool)

  datatype Outcome = Outcome(disk: Disk, attempts: seq<Attempt>)

  /** `@unlink($p)` or `@rmdir($p)`: whether it succeeds, and the disk afterwards. */
  function Apply(disk: Disk, op: Op): (r: (Disk, bool))
    ensures r.1 <==> op.path in disk.entries && op.path !in disk.locked &&
                     (op.Unlink? <==> disk.entries[op.path] != DirKind) &&
                     (op.Rmdir? ==> forall q :: q in disk.entries ==> !Below(op.path, q))
    ensures r.0 == if r.1 then Disk(disk.entries - {op.path}, disk.locked) else disk
  {
    var p := op.path;
    var ok :=
      match op
      case Unlink(_) => p in disk.entries && disk.entries[p] != DirKind && p !in disk.locked
      case Rmdir(_) =>
        p in disk.entries && disk.entries[p] == DirKind && p !in disk.locked &&
        forall q :: q in disk.entries ==> !Below(p, q);
    (if ok then Disk(disk.entries - {p}, disk.locked) else disk, ok)
  }

  /**
   * Attempting the deletions `ops` one after the other: each gets exactly one
   * attempt, whatever happened to the earlier ones, and deletions only ever
   * remove entries.
   */
  function Run(disk: Disk, ops: seq<Op>): (o: Outcome)
    ensures |o.attempts| == |ops|
    ensures forall i :: 0 <= i < |ops| ==> o.attempts[i].op == ops[i]
    ensures o.disk.locked == disk.locked
    ensures forall p :: p in o.disk.entries ==> p in disk.entries && o.disk.entries[p] == disk.entries[p]
  {
    if ops == [] then Outcome(disk, [])
    else
      var o := Run(disk, ops[..|ops| - 1]);
      var r := Apply(o.disk, ops[|ops| - 1]);
      Outcome(r.0, o.attempts + [Attempt(ops[|ops| - 1], r.1)])
  }

  predicate AllSucceeded(attempts: seq<Attempt>) {
    forall i :: 0 <= i < |attempts| ==> attempts[i].ok
  }

  function Unlinks(ps: seq<string>): (ops: seq<Op>)
    ensures |ops| == |ps| && forall i :: 0 <= i < |ps| ==> ops[i] == Unlink(ps[i])
  {
    if ps == [] then [] else Unlinks(ps[..|ps| - 1]) + [Unlink(ps[|ps| - 1])]
  }

  function Rmdirs(ps: seq<string>): (ops: seq<Op>)
    ensures |ops| == |ps| && forall i :: 0 <= i < |ps| ==> ops[i] == Rmdir(ps[i])
  {
    if ps == [] then [] else Rmdirs(ps[..|ps| - 1]) + [Rmdir(ps[|ps| - 1])]
  }

  /** What `rm -r` attempts for a merged listing: every file, then the directories after `rsort`. */
  function RecursivePlan(l: Listing): seq<Op> {
    Unlinks(l.files) + Rmdirs(RSort(l.dirs))
  }

  /**
   * The order of the recursive plan: every file is unlinked before any
   * directory is removed, every listed directory is removed exactly as often
   * as it is listed, and a directory is attempted only after every listed
   * directory whose path extends its own (in particular every listed
   * subdirectory).
   */
  lemma RecursivePlanOrder(l: Listing)
    ensures var ops := RecursivePlan(l);
            |ops| == |l.files| + |l.dirs| &&
            (forall i :: 0 <= i < |l.files| ==> ops[i] == Unlink(l.files[i])) &&
            (forall i :: |l.files| <= i < |ops| ==> ops[i].Rmdir?) &&
            multiset(RSort(l.dirs)) == multiset(l.dirs) &&
            (forall i, j ::
               (0 <= i < |ops| && 0 <= j < |ops| && ops[i].Rmdir? && ops[j].Rmdir? && ops[i].path < ops[j].path)
               ==> j < i)
  {
    PlanShape(l.files, RSort(l.dirs));
    ExtensionsFirst(l.files, RSort(l.dirs));
  }

  /** With the directories in descending order, an rmdir comes after every rmdir of a path extending its own. */
  lemma ExtensionsFirst(files: seq<string>, r: seq<string>)
    requires Descending(r)
    ensures var ops := Unlinks(files) + Rmdirs(r);
            forall i, j ::
              (0 <= i < |ops| && 0 <= j < |ops| && ops[i].Rmdir? && ops[j].Rmdir? && ops[i].path < ops[j].path)
              ==> j < i
  {
    var n, ops := |files|, Unlinks(files) + Rmdirs(r);
    PlanShape(files, r);
    forall i, j | 0 <= i < |ops| && 0 <= j < |ops| && ops[i].Rmdir? && ops[j].Rmdir? && ops[i].path < ops[j].path
      ensures j < i
    {
      assert i >= n && j >= n;
      assert ops[i].path == r[i - n] && ops[j].path == r[j - n];
      DescendingPutsExtensionsFirst(r, i - n, j - n);
    }
  }

  /** The unlinks of the files, followed by the rmdirs of the directories, position by position. */
  lemma PlanShape(files: seq<string>, r: seq<string>)
    ensures var ops, n := Unlinks(files) + Rmdirs(r), |files|;
            |ops| == n + |r| &&
            (forall i :: 0 <= i < n ==> ops[i] == Unlink(files[i])) &&
            (forall i :: n <= i < |ops| ==> ops[i] == Rmdir(r[i - n]))
  {
  }

  lemma RunSnoc(disk: Disk, ops: seq<Op>, op: Op)
    ensures var o := Run(disk, ops); var r := Apply(o.disk, op);
            Run(disk, ops + [op]) == Outcome(r.0, o.attempts + [Attempt(op, r.1)])
  {
    assert (ops + [op])[..|ops|] == ops;
  }

  lemma RmdirsSnoc(ds: seq<string>, k: nat)
    requires 0 < k <= |ds|
    ensures Rmdirs(ds[..k]) == Rmdirs(ds[..k - 1]) + [Rmdir(ds[k - 1])]
  {
    assert ds[..k][..k - 1] == ds[..k - 1];
  }

  /** Running two batches of deletions in turn is running their concatenation. */
  lemma {:induction false} RunAppend(disk: Disk, a: seq<Op>, b: seq<Op>)
    ensures var o1 := Run(disk, a); var o2 := Run(o1.disk, b);
            Run(disk, a + b) == Outcome(o2.disk, o1.attempts + o2.attempts)
    decreases |b|
  {
    if b == [] {
      assert a + b == a;
    } else {
      assert (a + b)[..|a + b| - 1] == a + b[..|b| - 1];
      RunAppend(disk, a, b[..|b| - 1]);
    }
  }

  /** The choice of the non-recursive mode: `is_dir($file) ? 'rmdir' : 'unlink'`, on the disk as it is then. */
  function DirectOp(disk: Disk, p: string): Op {
    if IsDirOnDisk(disk, p) then Rmdir(p) else Unlink(p)
  }

  /** The non-recursive mode: one deletion per argument, each chosen on the disk left by the previous ones. */
  function RunDirect(disk: Disk, ps: seq<string>): (o: Outcome)
    ensures |o.attempts| == |ps|
    ensures forall i :: 0 <= i < |ps| ==> o.attempts[i].op.path == ps[i]
  {
    if ps == [] then Outcome(disk, [])
    else
      var o := RunDirect(disk, ps[..|ps| - 1]);
      var op := DirectOp(o.disk, ps[|ps| - 1]);
      var r := Apply(o.disk, op);
      Outcome(r.0, o.attempts + [Attempt(op, r.1)])
  }

  // ---------------------------------------------------------------------
  // What `rm -r` leaves behind.
  // ---------------------------------------------------------------------

  /** Some entry the system refuses to delete lies below `d`. */
  ghost predicate LockedBelow(disk: Disk, d: string) {
    exists q :: q in disk.entries && q in disk.locked && Below(d, q)
  }

  /**
   * An entry that survives `rm -r`: one the system refuses to delete, or a
   * directory that still holds such an entry somewhere below it.
   */
  ghost predicate Survives(disk: Disk, p: string) {
    p in disk.entries && (p in disk.locked || (disk.entries[p] == DirKind && LockedBelow(disk, p)))
  }

  /** The disk holds exactly the listed paths, each once, directories as directories. */
  ghost predicate Matches(disk: Disk, l: Listing) {
    NoDup(l.files) && NoDup(l.dirs) &&
    (forall p :: p in disk.entries <==> p in l.files || p in l.dirs) &&
    (forall p :: p in l.dirs ==> p in disk.entries && disk.entries[p] == DirKind) &&
    (forall p :: p in l.files ==> p in disk.entries && disk.entries[p] != DirKind)
  }

  lemma AllSucceededAppend(a: seq<Attempt>, b: seq<Attempt>)
    ensures AllSucceeded(a + b) <==> AllSucceeded(a) && AllSucceeded(b)
  {
    if AllSucceeded(a) && AllSucceeded(b) {
      forall i | 0 <= i < |a + b|
        ensures (a + b)[i].ok
      {
        if i >= |a| {
          assert (a + b)[i] == b[i - |a|];
        }
      }
    }
    if AllSucceeded(a + b) {
      forall i | 0 <= i < |a|
        ensures a[i].ok
      {
        assert (a + b)[i] == a[i];
      }
      forall i | 0 <= i < |b|
        ensures b[i].ok
      {
        assert (a + b)[|a| + i] == b[i];
      }
    }
  }

  /** The first phase removes exactly the files it may remove. */
  lemma {:induction false} UnlinkPhase(disk: Disk, fs: seq<string>)
    requires NoDup(fs)
    requires forall f :: f in fs ==> f in disk.entries && disk.entries[f] != DirKind
    ensures var o := Run(disk, Unlinks(fs));
            (forall p :: p in o.disk.entries <==> p in disk.entries && !(p in fs && p !in disk.locked)) &&
            forall i :: 0 <= i < |fs| ==> (o.attempts[i].ok <==> fs[i] !in disk.locked)
  {
    if fs != [] {
      UnlinkPhase(disk, fs[..|fs| - 1]);
      UnlinkPhaseStep(disk, fs);
    }
  }

  /** The last `unlink` of the first phase, given what the ones before it did. */
  lemma UnlinkPhaseStep(disk: Disk, fs: seq<string>)
    requires fs != [] && NoDup(fs)
    requires forall f :: f in fs ==> f in disk.entries && disk.entries[f] != DirKind
    requires var init := fs[..|fs| - 1]; var o := Run(disk, Unlinks(init));
             (forall p :: p in o.disk.entries <==> p in disk.entries && !(p in init && p !in disk.locked)) &&
             forall i :: 0 <= i < |init| ==> (o.attempts[i].ok <==> init[i] !in disk.locked)
    ensures var o := Run(disk, Unlinks(fs));
            (forall p :: p in o.disk.entries <==> p in disk.entries && !(p in fs && p !in disk.locked)) &&
            forall i :: 0 <= i < |fs| ==> (o.attempts[i].ok <==> fs[i] !in disk.locked)
  {
    var init, f := fs[..|fs| - 1], fs[|fs| - 1];
    assert fs == init + [f];
    assert Unlinks(fs) == Unlinks(init) + [Unlink(f)];
    RunSnoc(disk, Unlinks(init), Unlink(f));
    var o := Run(disk, Unlinks(init));
    var r := Apply(o.disk, Unlink(f));
    var o' := Outcome(r.0, o.attempts + [Attempt(Unlink(f), r.1)]);
    assert forall i :: 0 <= i < |init| ==> init[i] != f;
    assert f in o.disk.entries;
    assert r.1 <==> f !in disk.locked;
    forall p
      ensures p in o'.disk.entries <==> p in disk.entries && !(p in fs && p !in disk.locked)
    {
      assert p in fs <==> p in init || p == f;
    }
    OkSnoc(o.attempts, Attempt(Unlink(f), r.1), fs, disk.locked);
  }

  /** One more attempt, which succeeds exactly when its path is not refused, keeps that said of every attempt. */
  lemma OkSnoc(a: seq<Attempt>, x: Attempt, fs: seq<string>, locked: set<string>)
    requires |fs| == |a| + 1
    requires forall i :: 0 <= i < |a| ==> (a[i].ok <==> fs[i] !in locked)
    requires x.ok <==> fs[|a|] !in locked
    ensures forall i :: 0 <= i < |fs| ==> ((a + [x])[i].ok <==> fs[i] !in locked)
  {
    forall i | 0 <= i < |fs|
      ensures (a + [x])[i].ok <==> fs[i] !in locked
    {
      if i < |a| {
        assert (a + [x])[i] == a[i];
      }
    }
  }

  /** The state during the second phase: the refused files, and the directories not yet handled or surviving. */
  ghost predicate MidRmdir(disk: Disk, l: Listing, ds: seq<string>, k: nat, cur: Disk)
    requires k <= |ds|
  {
    cur.locked == disk.locked &&
    (forall p :: p in cur.entries <==>
       p in disk.entries && !(p in l.files && p !in disk.locked) && !(p in ds[..k] && !Survives(disk, p))) &&
    (forall p :: p in cur.entries ==> p in disk.entries && cur.entries[p] == disk.entries[p])
  }

  /** The second phase starts from the disk the first phase leaves. */
  lemma MidRmdirStart(disk: Disk, l: Listing, ds: seq<string>, d1: Disk)
    requires d1.locked == disk.locked
    requires forall p :: p in d1.entries <==> p in disk.entries && !(p in l.files && p !in disk.locked)
    requires forall p :: p in d1.entries ==> p in disk.entries && d1.entries[p] == disk.entries[p]
    ensures MidRmdir(disk, l, ds, 0, d1)
  {
    assert ds[..0] == [];
  }

  /** A directory listed below `d` comes before `d` in the sorted list. */
  lemma SortedBefore(l: Listing, ds: seq<string>, k: nat, q: string)
    requires ds == RSort(l.dirs) && k < |ds|
    requires q in l.dirs && Below(ds[k], q)
    ensures q in ds[..k]
  {
    assert q in multiset(ds);
    var j :| 0 <= j < |ds| && ds[j] == q;
    DescendingPutsExtensionsFirst(ds, k, j);
  }

  lemma RmdirBlocked(disk: Disk, l: Listing, ds: seq<string>, k: nat, cur: Disk, q: string)
    requires Matches(disk, l)
    requires ds == RSort(l.dirs) && k < |ds|
    requires MidRmdir(disk, l, ds, k, cur)
    requires q in cur.entries && Below(ds[k], q)
    ensures LockedBelow(disk, ds[k])
  {
    if q in l.files {
      assert q in disk.locked;
    } else {
      SortedBefore(l, ds, k, q);
      if q !in disk.locked {
        assert LockedBelow(disk, q);
        var q' :| q' in disk.entries && q' in disk.locked && Below(q, q');
        BelowTransitive(ds[k], q, q');
      }
    }
  }

  lemma LockedBlocks(disk: Disk, l: Listing, ds: seq<string>, k: nat, cur: Disk, q: string)
    requires Matches(disk, l)
    requires ds == RSort(l.dirs) && k < |ds|
    requires MidRmdir(disk, l, ds, k, cur)
    requires q in disk.entries && q in disk.locked && Below(ds[k], q)
    ensures q in cur.entries
  {
    if q in l.dirs {
      SortedBefore(l, ds, k, q);
    }
  }

  /** One `rmdir` of the second phase succeeds exactly when its directory does not survive. */
  lemma RmdirStep(disk: Disk, l: Listing, ds: seq<string>, k: nat, cur: Disk)
    requires Matches(disk, l)
    requires ds == RSort(l.dirs) && NoDup(ds) && k < |ds|
    requires MidRmdir(disk, l, ds, k, cur)
    ensures Apply(cur, Rmdir(ds[k])).1 <==> !Survives(disk, ds[k])
    ensures ds[k] in cur.entries && ds[k] !in ds[..k]
  {
    var d := ds[k];
    assert d in multiset(l.dirs);
    assert forall i :: 0 <= i < k ==> ds[i] != d;
    assert d !in ds[..k];
    assert d in cur.entries;
    if exists q :: q in cur.entries && Below(d, q) {
      var q :| q in cur.entries && Below(d, q);
      RmdirBlocked(disk, l, ds, k, cur, q);
    }
    if LockedBelow(disk, d) {
      var q :| q in disk.entries && q in disk.locked && Below(d, q);
      LockedBlocks(disk, l, ds, k, cur, q);
    }
  }

  lemma RmdirAdvance(disk: Disk, l: Listing, ds: seq<string>, k: nat, cur: Disk)
    requires Matches(disk, l)
    requires ds == RSort(l.dirs) && NoDup(ds) && k < |ds|
    requires MidRmdir(disk, l, ds, k, cur)
    ensures Apply(cur, Rmdir(ds[k])).1 <==> !Survives(disk, ds[k])
    ensures MidRmdir(disk, l, ds, k + 1, Apply(cur, Rmdir(ds[k])).0)
  {
    RmdirStep(disk, l, ds, k, cur);
    RmdirNext(disk, l, ds, k, cur);
  }

  /** The state after one `rmdir` of the second phase, given what that `rmdir` does. */
  lemma RmdirNext(disk: Disk, l: Listing, ds: seq<string>, k: nat, cur: Disk)
    requires k < |ds| && ds[k] in cur.entries && ds[k] !in ds[..k]
    requires MidRmdir(disk, l, ds, k, cur)
    requires Apply(cur, Rmdir(ds[k])).1 <==> !Survives(disk, ds[k])
    ensures MidRmdir(disk, l, ds, k + 1, Apply(cur, Rmdir(ds[k])).0)
  {
    var d := ds[k];
    var r := Apply(cur, Rmdir(d));
    assert ds[..k + 1] == ds[..k] + [d];
    forall p
      ensures p in r.0.entries <==>
              p in disk.entries && !(p in l.files && p !in disk.locked) && !(p in ds[..k + 1] && !Survives(disk, p))
    {
      assert p in ds[..k + 1] <==> p in ds[..k] || p == d;
    }
  }

  /** The second phase removes exactly the directories that do not survive. */
  lemma {:induction false} RmdirPhase(disk: Disk, l: Listing, d1: Disk, ds: seq<string>, k: nat)
    requires Matches(disk, l)
    requires d1.locked == disk.locked
    requires forall p :: p in d1.entries <==> p in disk.entries && !(p in l.files && p !in disk.locked)
    requires forall p :: p in d1.entries ==> p in disk.entries && d1.entries[p] == disk.entries[p]
    requires ds == RSort(l.dirs) && NoDup(ds) && k <= |ds|
    ensures var o := Run(d1, Rmdirs(ds[..k]));
            MidRmdir(disk, l, ds, k, o.disk) &&
            forall j :: 0 <= j < k ==> (o.attempts[j].ok <==> !Survives(disk, ds[j]))
  {
    if k == 0 {
      assert ds[..0] == [];
    } else {
      RmdirPhase(disk, l, d1, ds, k - 1);
      RmdirPhaseStep(disk, l, d1, ds, k, Run(d1, Rmdirs(ds[..k - 1])));
    }
  }

  /** The `k`-th `rmdir` of the second phase keeps the description of the phase so far. */
  lemma RmdirPhaseStep(disk: Disk, l: Listing, d1: Disk, ds: seq<string>, k: nat, o: Outcome)
    requires Matches(disk, l)
    requires ds == RSort(l.dirs) && NoDup(ds) && 0 < k <= |ds|
    requires o == Run(d1, Rmdirs(ds[..k - 1]))
    requires MidRmdir(disk, l, ds, k - 1, o.disk)
    requires forall j :: 0 <= j < k - 1 ==> (o.attempts[j].ok <==> !Survives(disk, ds[j]))
    ensures var o' := Run(d1, Rmdirs(ds[..k]));
            MidRmdir(disk, l, ds, k, o'.disk) &&
            forall j :: 0 <= j < k ==> (o'.attempts[j].ok <==> !Survives(disk, ds[j]))
  {
    RmdirsSnoc(ds, k);
    RunSnoc(d1, Rmdirs(ds[..k - 1]), Rmdir(ds[k - 1]));
    RmdirAdvance(disk, l, ds, k - 1, o.disk);
    var r := Apply(o.disk, Rmdir(ds[k - 1]));
    var o' := Outcome(r.0, o.attempts + [Attempt(Rmdir(ds[k - 1]), r.1)]);
    forall j | 0 <= j < k
      ensures o'.attempts[j].ok <==> !Survives(disk, ds[j])
    {
      if j < k - 1 {
        assert o'.attempts[j] == o.attempts[j];
      }
    }
  }

  /** The second phase of `rm -r`, from the disk the first phase leaves, described as a whole. */
  lemma SecondPhase(disk: Disk, l: Listing, d1: Disk)
    requires Matches(disk, l)
    requires d1.locked == disk.locked
    requires forall p :: p in d1.entries <==> p in disk.entries && !(p in l.files && p !in disk.locked)
    requires forall p :: p in d1.entries ==> p in disk.entries && d1.entries[p] == disk.entries[p]
    ensures var ds := RSort(l.dirs); var o2 := Run(d1, Rmdirs(ds));
            MidRmdir(disk, l, ds, |ds|, o2.disk) &&
            forall j :: 0 <= j < |ds| ==> (o2.attempts[j].ok <==> !Survives(disk, ds[j]))
  {
    var ds := RSort(l.dirs);
    RSortNoDup(l.dirs);
    MidRmdirStart(disk, l, ds, d1);
    RmdirPhase(disk, l, d1, ds, |ds|);
    assert ds[..|ds|] == ds;
  }

  lemma RemoveListingLeaves(disk: Disk, l: Listing)
    requires Matches(disk, l)
    ensures forall p :: p in Run(disk, RecursivePlan(l)).disk.entries <==> Survives(disk, p)
  {
    var ds := RSort(l.dirs);
    UnlinkPhase(disk, l.files);
    var o1 := Run(disk, Unlinks(l.files));
    SecondPhase(disk, l, o1.disk);
    RunAppend(disk, Unlinks(l.files), Rmdirs(ds));
    RSortMembers(l.dirs);
    MidRmdirDone(disk, l, ds, Run(o1.disk, Rmdirs(ds)).disk);
  }

  /** Once every listed directory is handled, exactly the surviving entries are left. */
  lemma MidRmdirDone(disk: Disk, l: Listing, ds: seq<string>, cur: Disk)
    requires Matches(disk, l)
    requires forall p :: p in l.dirs <==> p in ds
    requires MidRmdir(disk, l, ds, |ds|, cur)
    ensures forall p :: p in cur.entries <==> Survives(disk, p)
  {
    assert ds[..|ds|] == ds;
  }

  /** Which attempts of `rm -r` fail on a matching disk. */
  lemma PlanAttempts(disk: Disk, l: Listing) returns (a1: seq<Attempt>, a2: seq<Attempt>, ds: seq<string>)
    requires Matches(disk, l)
    ensures Run(disk, RecursivePlan(l)).attempts == a1 + a2
    ensures |a1| == |l.files| && |a2| == |ds|
    ensures forall i :: 0 <= i < |l.files| ==> (a1[i].ok <==> l.files[i] !in disk.locked)
    ensures forall j :: 0 <= j < |ds| ==> (a2[j].ok <==> !Survives(disk, ds[j]))
    ensures forall p :: p in l.dirs <==> p in ds
  {
    ds := RSort(l.dirs);
    UnlinkPhase(disk, l.files);
    var o1 := Run(disk, Unlinks(l.files));
    SecondPhase(disk, l, o1.disk);
    RunAppend(disk, Unlinks(l.files), Rmdirs(ds));
    var o2 := Run(o1.disk, Rmdirs(ds));
    a1, a2 := o1.attempts, o2.attempts;
    RSortMembers(l.dirs);
  }

  lemma SuccessMeansNothingLocked(disk: Disk, l: Listing)
    requires Matches(disk, l)
    requires AllSucceeded(Run(disk, RecursivePlan(l)).attempts)
    ensures forall p :: p in disk.entries ==> p !in disk.locked
  {
    var a1, a2, ds := PlanAttempts(disk, l);
    AllSucceededAppend(a1, a2);
    forall p | p in disk.entries
      ensures p !in disk.locked
    {
      if p in l.files {
        var i :| 0 <= i < |l.files| && l.files[i] == p;
        assert a1[i].ok;
      } else {
        var j :| 0 <= j < |ds| && ds[j] == p;
        assert a2[j].ok;
      }
    }
  }

  lemma NothingLockedSucceeds(disk: Disk, l: Listing)
    requires Matches(disk, l)
    requires forall p :: p in disk.entries ==> p !in disk.locked
    ensures AllSucceeded(Run(disk, RecursivePlan(l)).attempts)
  {
    var a1, a2, ds := PlanAttempts(disk, l);
    assert AllSucceeded(a1) by {
      forall i | 0 <= i < |a1|
        ensures a1[i].ok
      {
        assert l.files[i] in l.files;
      }
    }
    assert AllSucceeded(a2) by {
      forall j | 0 <= j < |a2|
        ensures a2[j].ok
      {
        NothingSurvives(disk, ds[j]);
      }
    }
    AllSucceededAppend(a1, a2);
  }

  lemma NothingSurvives(disk: Disk, p: string)
    requires forall q :: q in disk.entries ==> q !in disk.locked
    ensures !Survives(disk, p)
  {
  }

  /**
   * `rm -r` on a listing that matches the disk: it reports success exactly
   * when nothing is refused, and afterwards exactly the surviving entries are
   * left (a refused entry, or a directory with a refused entry below it).
   */
  lemma RemoveListing(disk: Disk, l: Listing)
    requires Matches(disk, l)
    ensures var o := Run(disk, RecursivePlan(l));
            (AllSucceeded(o.attempts) <==> forall p :: p in disk.entries ==> p !in disk.locked) &&
            (forall p :: p in o.disk.entries <==> Survives(disk, p))
  {
    RemoveListingLeaves(disk, l);
    if AllSucceeded(Run(disk, RecursivePlan(l)).attempts) {
      SuccessMeansNothingLocked(disk, l);
    }
    if forall p :: p in disk.entries ==> p !in disk.locked {
      NothingLockedSucceeds(disk, l);
    }
  }

  /** The kind of entry a node leaves on disk. */
  function KindOf(n: Node): (k: Kind)
    ensures k == DirKind <==> n.Dir?
  {
    match n
    case Dir(_, _) => DirKind
    case File => FileKind
    case Link(t) => LinkKind(t)
  }

  /** The flat view of the nodes met on a walk: each path with the kind of its node. */
  function Flat(vs: seq<Visit>): (m: map<string, Kind>)
    ensures forall p :: p in m <==> p in Paths(vs)
  {
    if vs == [] then map[] else Flat(vs[..|vs| - 1])[vs[|vs| - 1].path := KindOf(vs[|vs| - 1].node)]
  }

  /** When no path is met twice, the flat view matches the listing of directories and other paths. */
  lemma {:induction false} FlatMatches(vs: seq<Visit>, locked: set<string>)
    requires NoDup(Paths(vs))
    ensures Matches(Disk(Flat(vs), locked), Listing(DirPaths(vs), OtherPaths(vs)))
  {
    if vs != [] {
      var init, v := vs[..|vs| - 1], vs[|vs| - 1];
      assert Paths(init) == Paths(vs)[..|vs| - 1];
      FlatMatches(init, locked);
      assert forall i :: 0 <= i < |init| ==> Paths(vs)[i] != v.path;
      assert v.path !in Paths(init);
      var m := Flat(vs);
      if v.node.Dir? {
        NoDupAppend(DirPaths(init), [v.path]);
        assert OtherPaths(vs) == OtherPaths(init);
      } else {
        NoDupAppend(OtherPaths(init), [v.path]);
        assert DirPaths(vs) == DirPaths(init);
      }
    }
  }

  /**
   * `rm -r` on one directory whose tree the walker can read: it reports
   * success exactly when nothing in the tree is refused; afterwards exactly
   * the refused entries and the directories above them are left, so with
   * nothing refused the whole tree is gone.
   */
  lemma RemoveTree(r: string, at: map<string, Node>, disk: Disk)
    requires IsDirArg(at, r) && WellNamed(at[r]) && FullyReadable(at[r])
    requires disk.entries == Flat(Preorder(r, at[r]))
    ensures var o := Run(disk, RecursivePlan(Merged([r], at)));
            (AllSucceeded(o.attempts) <==> forall p :: p in disk.entries ==> p !in disk.locked) &&
            (forall p :: p in o.disk.entries <==> Survives(disk, p)) &&
            ((forall p :: p in disk.entries ==> p !in disk.locked) ==> o.disk.entries == map[])
  {
    TreeMatches(r, at, disk);
    RemoveListing(disk, Merged([r], at));
    var o := Run(disk, RecursivePlan(Merged([r], at)));
    if forall p :: p in disk.entries ==> p !in disk.locked {
      assert o.disk.entries.Keys == {};
    }
  }

  /** The listing of one readable directory matches the flat view of its tree. */
  lemma TreeMatches(r: string, at: map<string, Node>, disk: Disk)
    requires IsDirArg(at, r) && WellNamed(at[r]) && FullyReadable(at[r])
    requires disk.entries == Flat(Preorder(r, at[r]))
    ensures Matches(disk, Merged([r], at))
  {
    var vs := Preorder(r, at[r]);
    WalkIsPreorder(r, at[r], 0);
    assert [r][..0] == [];
    var w := Walk(r, at[r], 0, 0);
    assert Merged([r], at) == MergeRecursive(w, Empty);
    assert w.dirs + [] == w.dirs && w.files + [] == w.files;
    PreorderDistinct(r, at[r]);
    FlatMatches(vs, disk.locked);
    assert disk == Disk(Flat(vs), disk.locked);
  }

  // ---------------------------------------------------------------------
  // The command.
  // ---------------------------------------------------------------------

  /** One option as `_parseArgs` returns it: `$opt[0]` is its letter. */
  datatype Opt = Opt(letter: string, value: string)

  /** What `_parseArgs($args, 'rf')` returns: an error, or the options and the operands. */
  datatype ParsedArgs = ParseError(message: string) | Parsed(options: seq<Opt>, operands: seq<string>)

  predicate HasR(options: seq<Opt>) {
    exists i :: 0 <= i < |options| && options[i].letter == "r"
  }

  /**
   * The `foreach ($struct['files'] as $file)` loop: unlink each one; a failure
   * clears `$ret`.
   */
  method UnlinkAll(disk: Disk, files: seq<string>, ret0: bool) returns (o: Outcome, ret: bool)
    ensures o == Run(disk, Unlinks(files))
    ensures ret <==> ret0 && AllSucceeded(o.attempts)
  {
    ghost var ops := Unlinks(files);
    o, ret := Outcome(disk, []), ret0;
    for i := 0 to |files|
      invariant o == Run(disk, ops[..i])
      invariant ret <==> ret0 && AllSucceeded(o.attempts)
    {
      var r := Apply(o.disk, Unlink(files[i]));
      RunStep(disk, ops, i, o, ret0, ret);
      ret := ret && r.1;
      o := Outcome(r.0, o.attempts + [Attempt(Unlink(files[i]), r.1)]);
    }
    assert ops[..|files|] == ops;
  }

  /** The `foreach ($struct['dirs'] as $dir)` loop after `rsort`: rmdir each one. */
  method RmdirAll(disk: Disk, dirs: seq<string>, ret0: bool) returns (o: Outcome, ret: bool)
    ensures o == Run(disk, Rmdirs(dirs))
    ensures ret <==> ret0 && AllSucceeded(o.attempts)
  {
    ghost var ops := Rmdirs(dirs);
    o, ret := Outcome(disk, []), ret0;
    for i := 0 to |dirs|
      invariant o == Run(disk, ops[..i])
      invariant ret <==> ret0 && AllSucceeded(o.attempts)
    {
      var r := Apply(o.disk, Rmdir(dirs[i]));
      RunStep(disk, ops, i, o, ret0, ret);
      ret := ret && r.1;
      o := Outcome(r.0, o.attempts + [Attempt(Rmdir(dirs[i]), r.1)]);
    }
    assert ops[..|dirs|] == ops;
  }

  /** One pass of a deletion loop: the next attempt extends the run, and `$ret` stays the conjunction of the results. */
  lemma RunStep(disk: Disk, ops: seq<Op>, i: int, o: Outcome, ret0: bool, ret: bool)
    requires 0 <= i < |ops|
    requires o == Run(disk, ops[..i]) && (ret <==> ret0 && AllSucceeded(o.attempts))
    ensures var r := Apply(o.disk, ops[i]); var o' := Outcome(r.0, o.attempts + [Attempt(ops[i], r.1)]);
            o' == Run(disk, ops[..i + 1]) && (ret && r.1 <==> ret0 && AllSucceeded(o'.attempts))
  {
    assert ops[..i + 1] == ops[..i] + [ops[i]];
    RunSnoc(disk, ops[..i], ops[i]);
    var r := Apply(o.disk, ops[i]);
    AllSucceededAppend(o.attempts, [Attempt(ops[i], r.1)]);
  }

  /** The non-recursive `foreach ($opts[1] as $file)` loop. */
  method DeleteEach(disk: Disk, ps: seq<string>) returns (o: Outcome, ret: bool)
    ensures o == RunDirect(disk, ps)
    ensures ret <==> AllSucceeded(o.attempts)
  {
    o, ret := Outcome(disk, []), true;
    for i := 0 to |ps|
      invariant o == RunDirect(disk, ps[..i])
      invariant ret <==> AllSucceeded(o.attempts)
    {
      assert ps[..i + 1][..i] == ps[..i];
      var op := if IsDirOnDisk(o.disk, ps[i]) then Rmdir(ps[i]) else Unlink(ps[i]);
      var r := Apply(o.disk, op);
      if !r.1 {
        ret := false;
      }
      AllSucceededAppend(o.attempts, [Attempt(op, r.1)]);
      o := Outcome(r.0, o.attempts + [Attempt(op, r.1)]);
    }
    assert ps[..|ps|] == ps;
  }

  /**
   * `rm($args)` once the arguments are parsed; `at` gives what the walker
   * finds at each operand, `disk` what the deletions act on.
   */
  method Rm(parsed: ParsedArgs, at: map<string, Node>, disk: Disk)
    returns (ret: bool, attempts: seq<Attempt>, after: Disk, warnings: seq<string>)
    ensures parsed.ParseError? ==> !ret && attempts == [] && after == disk && warnings == [parsed.message]
    ensures parsed.Parsed? && HasR(parsed.options) ==>
              Outcome(after, attempts) == Run(disk, RecursivePlan(Merged(parsed.operands, at)))
    ensures parsed.Parsed? && !HasR(parsed.options) ==>
              Outcome(after, attempts) == RunDirect(disk, parsed.operands)
    ensures parsed.Parsed? ==> (ret <==> AllSucceeded(attempts))
    ensures parsed.Parsed? && HasR(parsed.options) ==> warnings == MergedWarnings(parsed.operands, at)
    ensures parsed.Parsed? && !HasR(parsed.options) ==> warnings == []
  {
    if parsed.ParseError? {
      // The error's code plays no part in what `raiseError` reports.
      var raised := Errors.RaiseError(Errors.PearError(parsed.message, 0));
      return raised.ret, [], disk, [raised.warning];
    }
    var recursive := false;
    for k := 0 to |parsed.options|
      invariant recursive <==> exists i :: 0 <= i < k && parsed.options[i].letter == "r"
    {
      if parsed.options[k].letter == "r" {
        recursive := true;
      }
    }
    var o;
    if recursive {
      var struct;
      struct, warnings := MultipleToStruct(parsed.operands, at);
      var o1, ret1 := UnlinkAll(disk, struct.files, true);
      var o2;
      o2, ret := RmdirAll(o1.disk, RSort(struct.dirs), ret1);
      RunAppend(disk, Unlinks(struct.files), Rmdirs(RSort(struct.dirs)));
      AllSucceededAppend(o1.attempts, o2.attempts);
      o := Outcome(o2.disk, o1.attempts + o2.attempts);
    } else {
      o, ret := DeleteEach(disk, parsed.operands);
      warnings := [];
    }
    attempts, after := o.attempts, o.disk;
  }
}
