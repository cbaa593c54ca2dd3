/**
 * `mkDir`: creates each named directory; with `-p`, first every missing
 * ancestor, shallowest first.
 *
 * The filesystem is a map from every existing path to whether it is a
 * directory, with the set of writable paths. `mkdir` is POSIX `mkdir`
 * on that map: it fails on an existing path and when the parent is not a
 * writable directory, and otherwise adds a new directory (writable, since
 * the mode is not modelled).
 */
module MakeDir {
  import opened FileTree
  import opened PhpPath

  datatype Fs = Fs(entries: map<string, bool>, writable: set<string>)

  predicate Exists(fs: Fs, p: string) {
    p in fs.entries
  }

  predicate IsDir(fs: Fs, p: string) {
    p in fs.entries && fs.entries[p]
  }

  /** `is_writeable($p)`: false for a path that does not exist. */
  predicate IsWriteable(fs: Fs, p: string) {
    Exists(fs, p) && p in fs.writable
  }

  /** `mkdir($p, $mode)` succeeds. */
  predicate CanMake(fs: Fs, p: string) {
    p != [] && !Exists(fs, p) && IsDir(fs, Dirname(p)) && IsWriteable(fs, Dirname(p))
  }

  /** The filesystem after a successful `mkdir($p, $mode)`. */
  function Made(fs: Fs, p: string): (r: Fs)
    ensures IsDir(r, p) && IsWriteable(r, p)
    ensures forall q :: q != p ==>
              (Exists(r, q) <==> Exists(fs, q)) && (IsDir(r, q) <==> IsDir(fs, q)) && (q in r.writable <==> q in fs.writable)
  {
    Fs(fs.entries[p := true], fs.writable + {p})
  }

  /** A filesystem and whether every `mkdir` so far succeeded. */
  datatype Step = Step(fs: Fs, ok: bool)

  /** One `mkdir` call and its effect. */
  function Attempt(fs: Fs, p: string): Step {
    if CanMake(fs, p) then Step(Made(fs, p), true) else Step(fs, false)
  }

  // ---------------------------------------------------------------------
  // The arguments.
  // ---------------------------------------------------------------------

  datatype Parsed = Parsed(parents: bool, dirs: seq<string>)

  /** The argument loop from index `i`: `-p` sets the flag, `-m` takes the next token as the mode, anything else is a directory. */
  function ParseFrom(args: seq<string>, i: nat, p: Parsed): Parsed
    decreases |args| - i
  {
    if i >= |args| then p
    else if args[i] == "-p" then ParseFrom(args, i + 1, p.(parents := true))
    else if args[i] == "-m" then ParseFrom(args, i + 2, p)
    else ParseFrom(args, i + 1, p.(dirs := p.dirs + [args[i]]))
  }

  function Parse(args: seq<string>): Parsed {
    ParseFrom(args, 0, Parsed(false, []))
  }

  method ParseArgs(args: seq<string>) returns (p: Parsed)
    ensures p == Parse(args)
  {
    p := Parsed(false, []);
    var i := 0;
    while i < |args|
      invariant ParseFrom(args, i, p) == Parse(args)
      decreases |args| - i
    {
      if args[i] == "-p" {
        p := p.(parents := true);
      } else if args[i] == "-m" {
        i := i + 1;  // the mode, which is not modelled
      } else {
        p := p.(dirs := p.dirs + [args[i]]);
      }
      i := i + 1;
    }
  }

  lemma {:induction false} ParseFromPlain(args: seq<string>, i: nat, p: Parsed)
    requires i <= |args|
    requires forall j :: i <= j < |args| ==> args[j] != "-p" && args[j] != "-m"
    ensures ParseFrom(args, i, p) == p.(dirs := p.dirs + args[i..])
    decreases |args| - i
  {
    if i < |args| {
      ParseFromPlain(args, i + 1, p.(dirs := p.dirs + [args[i]]));
      assert p.dirs + [args[i]] + args[i + 1..] == p.dirs + args[i..];
    } else {
      assert p.dirs + args[i..] == p.dirs;
    }
  }

  /** Without options every argument names a directory, in order. */
  lemma ParsePlain(args: seq<string>)
    requires forall j :: 0 <= j < |args| ==> args[j] != "-p" && args[j] != "-m"
    ensures Parse(args) == Parsed(false, args)
  {
    ParseFromPlain(args, 0, Parsed(false, []));
    assert [] + args[0..] == args;
  }

  /** The parse of a suffix does not depend on what comes before it. */
  lemma {:induction false} ParseShift(a: seq<string>, b: seq<string>, i: nat, p: Parsed)
    ensures ParseFrom(a + b, |a| + i, p) == ParseFrom(b, i, p)
    decreases |b| - i
  {
    if i < |b| {
      assert (a + b)[|a| + i] == b[i];
      if b[i] == "-p" {
        ParseShift(a, b, i + 1, p.(parents := true));
      } else if b[i] == "-m" {
        ParseShift(a, b, i + 2, p);
      } else {
        ParseShift(a, b, i + 1, p.(dirs := p.dirs + [b[i]]));
      }
    }
  }

  /** `-m` takes the next token as the mode whatever it is, even `-p`; a trailing `-m` takes nothing. */
  lemma ModeTakesNextToken(t: string, rest: seq<string>, p: Parsed)
    ensures ParseFrom(["-m", t] + rest, 0, p) == ParseFrom(rest, 0, p)
    ensures ParseFrom(["-m"], 0, p) == p
  {
    assert (["-m", t] + rest)[0] == "-m";
    ParseShift(["-m", t], rest, 0, p);
  }

  /** `-p` may stand anywhere; every other token but `-m` names a directory. */
  lemma ParseStep(t: string, rest: seq<string>, p: Parsed)
    ensures t == "-p" ==> ParseFrom([t] + rest, 0, p) == ParseFrom(rest, 0, p.(parents := true))
    ensures t != "-p" && t != "-m" ==> ParseFrom([t] + rest, 0, p) == ParseFrom(rest, 0, p.(dirs := p.dirs + [t]))
  {
    assert ([t] + rest)[0] == t;
    ParseShift([t], rest, 0, p.(parents := true));
    ParseShift([t], rest, 0, p.(dirs := p.dirs + [t]));
  }

  // ---------------------------------------------------------------------
  // Climbing to the missing ancestors.
  // ---------------------------------------------------------------------

  datatype Climb = Stopped(stack: seq<string>) | Running

  /** The source's guard of the climbing loop: not an existing directory, and not the root. */
  predicate ClimbsAsWritten(fs: Fs, d: string) {
    !IsDir(fs, d) && d != [Sep]
  }

  /**
   * The climbing loop as written, run for at most `fuel` steps: `Running`
   * when it has not stopped by then, otherwise the stack it built.
   */
  function AncestorsAsWritten(fs: Fs, d: string, fuel: nat): Climb
    decreases fuel
  {
    if !ClimbsAsWritten(fs, d) then Stopped([])
    else if fuel == 0 then Running
    else
      match AncestorsAsWritten(fs, Dirname(d), fuel - 1)
      case Running => Running
      case Stopped(s) => Stopped(s + [d])
  }

  /** The guard never turns false on a missing path that is its own dirname. */
  lemma {:induction false} FixpointNeverStops(fs: Fs, d: string, fuel: nat)
    requires ClimbsAsWritten(fs, d) && Dirname(d) == d
    ensures AncestorsAsWritten(fs, d, fuel) == Running
  {
    if fuel > 0 {
      FixpointNeverStops(fs, d, fuel - 1);
    }
  }

  /** `mkDir(['-p', ''])` loops for ever: the climb from "" does not stop after any number of steps. */
  lemma EmptyNameNeverStops(fs: Fs, fuel: nat)
    requires !IsDir(fs, [])
    ensures AncestorsAsWritten(fs, [], fuel) == Running
  {
    DirnameFixpoints();
    FixpointNeverStops(fs, [], fuel);
  }

  /** The corrected guard: also stop at a path that is its own dirname. */
  predicate Climbs(fs: Fs, d: string) {
    ClimbsAsWritten(fs, d) && Dirname(d) != d
  }

  /** The stack the corrected climb builds: the missing ancestors of `d` and `d`, shallowest first. */
  function Ancestors(fs: Fs, d: string): seq<string>
    decreases Height(d)
  {
    if Climbs(fs, d) then
      DirnameClimbs(d);
      Ancestors(fs, Dirname(d)) + [d]
    else []
  }

  /** Wherever the loop as written stops, the corrected loop builds the same stack. */
  lemma {:induction false} AncestorsAgree(fs: Fs, d: string, fuel: nat)
    ensures AncestorsAsWritten(fs, d, fuel).Stopped? ==> AncestorsAsWritten(fs, d, fuel).stack == Ancestors(fs, d)
    decreases fuel
  {
    if ClimbsAsWritten(fs, d) && fuel > 0 {
      if Dirname(d) == d {
        FixpointNeverStops(fs, d, fuel);
      } else {
        AncestorsAgree(fs, Dirname(d), fuel - 1);
      }
    }
  }

  /**
   * The stack ends with `d`, each entry is the dirname of the next, none is
   * an existing directory, and the climb stopped at the parent of the first.
   */
  lemma {:induction false} AncestorsChain(fs: Fs, d: string)
    ensures var s := Ancestors(fs, d);
            (s == [] <==> !Climbs(fs, d)) &&
            (s != [] ==> s[|s| - 1] == d && !Climbs(fs, Dirname(s[0]))) &&
            (forall i :: 0 < i < |s| ==> s[i - 1] == Dirname(s[i])) &&
            (forall i :: 0 <= i < |s| ==> !IsDir(fs, s[i]))
    decreases Height(d)
  {
    if Climbs(fs, d) {
      DirnameClimbs(d);
      AncestorsChain(fs, Dirname(d));
      var s0 := Ancestors(fs, Dirname(d));
      if s0 == [] {
        assert Ancestors(fs, d) == [d];
      }
    }
  }

  /** The climbing loop, with the corrected guard. */
  method AncestorStack(fs: Fs, dir: string) returns (stack: seq<string>)
    ensures stack == Ancestors(fs, dir)
  {
    stack := [];
    var d := dir;
    while !IsDir(fs, d) && d != [Sep] && Dirname(d) != d
      invariant Ancestors(fs, d) + stack == Ancestors(fs, dir)
      decreases Height(d)
    {
      AncestorsPush(fs, d, stack, dir);
      stack := [d] + stack;
      d := Dirname(d);
    }
    assert Ancestors(fs, d) == [];
  }

  /** One step of the climb keeps the loop's invariant and goes up. */
  lemma AncestorsPush(fs: Fs, d: string, stack: seq<string>, dir: string)
    requires Climbs(fs, d)
    requires Ancestors(fs, d) + stack == Ancestors(fs, dir)
    ensures Height(Dirname(d)) < Height(d)
    ensures Ancestors(fs, Dirname(d)) + ([d] + stack) == Ancestors(fs, dir)
  {
    DirnameClimbs(d);
    var above := Ancestors(fs, Dirname(d));
    assert Ancestors(fs, d) == above + [d];
    AppendAssoc(above, [d], stack);
  }


  // ---------------------------------------------------------------------
  // Creating the stack.
  // ---------------------------------------------------------------------

  /** `array_shift` yields a falsy string. */
  predicate Falsy(s: string) {
    s == "" || s == "0"
  }

  /**
   * The shift loop: stops at the end of the stack or at a falsy entry; an
   * entry whose parent is not writable makes it give up on this stack.
   */
  function Shift(fs: Fs, stack: seq<string>): Step
    decreases |stack|
  {
    if stack == [] || Falsy(stack[0]) then Step(fs, true)
    else if !IsWriteable(fs, Dirname(stack[0])) then Step(fs, false)
    else
      var a := Attempt(fs, stack[0]);
      var rest := Shift(a.fs, stack[1..]);
      Step(rest.fs, a.ok && rest.ok)
  }

  /** Every directory stays one, and when the loop succeeds on a stack without falsy entries, all of it exists as directories. */
  lemma {:induction false} ShiftCreates(fs: Fs, stack: seq<string>)
    ensures forall q :: IsDir(fs, q) ==> IsDir(Shift(fs, stack).fs, q)
    ensures (forall i :: 0 <= i < |stack| ==> !Falsy(stack[i])) && Shift(fs, stack).ok ==>
              forall i :: 0 <= i < |stack| ==> IsDir(Shift(fs, stack).fs, stack[i])
    decreases |stack|
  {
    if stack != [] && !Falsy(stack[0]) && IsWriteable(fs, Dirname(stack[0])) {
      var a := Attempt(fs, stack[0]);
      ShiftCreates(a.fs, stack[1..]);
      if (forall i :: 0 <= i < |stack| ==> !Falsy(stack[i])) && Shift(fs, stack).ok {
        assert forall i :: 1 <= i < |stack| ==> stack[i] == stack[1..][i - 1];
      }
    }
  }

  /**
   * With `-p`, a successful name whose climb meets no falsy entry exists
   * as a directory afterwards, unless it is "/" or its own dirname.
   */
  lemma MadeWithParents(fs: Fs, d: string)
    ensures var s := Ancestors(fs, d);
            (forall i :: 0 <= i < |s| ==> !Falsy(s[i])) && Shift(fs, s).ok ==>
              IsDir(Shift(fs, s).fs, d) || d == [Sep] || Dirname(d) == d
  {
    AncestorsChain(fs, d);
    ShiftCreates(fs, Ancestors(fs, d));
  }

  /** A climb that reaches "0" creates nothing and reports success: `mkDir(['-p', '0/a'])` in a directory without "0". */
  lemma ZeroAncestorStops(fs: Fs, d: string)
    requires Ancestors(fs, d) != [] && Ancestors(fs, d)[0] == "0"
    ensures Shift(fs, Ancestors(fs, d)) == Step(fs, true)
  {
  }

  lemma ZeroAncestorExample()
    ensures var fs := Fs(map["." := true], {"."});
            Ancestors(fs, "0/a") == ["0", "0/a"] && Shift(fs, Ancestors(fs, "0/a")) == Step(fs, true)
  {
    var fs := Fs(map["." := true], {"."});
    assert StripSeps("0/a") == "0/a";
    assert StripName("0/a") == "0/";
    assert StripSeps("0/") == "0";
    assert Dirname("0/a") == "0";
    assert StripName("0") == [];
    assert Dirname("0") == ".";
    assert Ancestors(fs, ".") == [];
    assert Ancestors(fs, "0") == ["0"];
  }

  // ---------------------------------------------------------------------
  // The command.
  // ---------------------------------------------------------------------

  /** With `-p`: each name in turn, its climb taken in the filesystem the earlier names left. */
  function MakeParents(fs: Fs, dirs: seq<string>): Step
    decreases |dirs|
  {
    if dirs == [] then Step(fs, true)
    else
      var s := MakeParents(fs, dirs[..|dirs| - 1]);
      var t := Shift(s.fs, Ancestors(s.fs, dirs[|dirs| - 1]));
      Step(t.fs, s.ok && t.ok)
  }

  /** Without `-p`: `mkdir` on each name in turn. */
  function MakeEach(fs: Fs, dirs: seq<string>): Step
    decreases |dirs|
  {
    if dirs == [] then Step(fs, true)
    else
      var s := MakeEach(fs, dirs[..|dirs| - 1]);
      var a := Attempt(s.fs, dirs[|dirs| - 1]);
      Step(a.fs, s.ok && a.ok)
  }

  /**
   * Without `-p`, fresh distinct names under writable directories are all
   * created, and the call succeeds; every existing directory stays one.
   */
  lemma {:induction false} MakeEachFresh(fs: Fs, dirs: seq<string>)
    requires forall i :: 0 <= i < |dirs| ==> dirs[i] != [] && !Exists(fs, dirs[i])
    requires forall i :: 0 <= i < |dirs| ==> IsDir(fs, Dirname(dirs[i])) && IsWriteable(fs, Dirname(dirs[i]))
    requires NoDup(dirs)
    ensures MakeEach(fs, dirs).ok
    ensures forall i :: 0 <= i < |dirs| ==> IsDir(MakeEach(fs, dirs).fs, dirs[i])
    ensures forall q :: IsDir(fs, q) ==> IsDir(MakeEach(fs, dirs).fs, q)
    ensures forall q :: IsWriteable(fs, q) ==> IsWriteable(MakeEach(fs, dirs).fs, q)
    ensures forall q :: q !in dirs ==> (Exists(MakeEach(fs, dirs).fs, q) <==> Exists(fs, q))
  {
    if dirs != [] {
      var init, last := dirs[..|dirs| - 1], dirs[|dirs| - 1];
      assert forall i :: 0 <= i < |init| ==> init[i] == dirs[i];
      assert NoDup(init);
      MakeEachFresh(fs, init);
      var s := MakeEach(fs, init);
      assert last !in init by {
        assert forall i :: 0 <= i < |init| ==> init[i] != last;
      }
      assert CanMake(s.fs, last);
      var r := Made(s.fs, last);
      assert MakeEach(fs, dirs) == Step(r, s.ok);
      forall i | 0 <= i < |dirs|
        ensures IsDir(r, dirs[i])
      {
        if i < |init| {
          assert IsDir(s.fs, init[i]);
        }
      }
      forall q | q !in dirs
        ensures Exists(r, q) <==> Exists(fs, q)
      {
        assert q !in init && q != last;
      }
    }
  }

  /**
   * `mkDir($args)`: returns whether every `mkdir` succeeded, and the
   * filesystem afterwards. Without `-p` the guard `file_exists || !is_dir`
   * always holds, so `mkdir` is attempted for every name.
   */
  method MkDir(args: seq<string>, fs: Fs) returns (ret: bool, after: Fs)
    ensures var p := Parse(args);
            Step(after, ret) == if p.parents then MakeParents(fs, p.dirs) else MakeEach(fs, p.dirs)
  {
    var parsed := ParseArgs(args);
    if parsed.parents {
      ret, after := ParentsLoop(parsed.dirs, fs);
    } else {
      ret, after := EachLoop(parsed.dirs, fs);
    }
  }

  /** The `foreach ($dirs as $dir)` loop with `-p`: climb, then create the stack. */
  method ParentsLoop(dirs: seq<string>, fs: Fs) returns (ret: bool, after: Fs)
    ensures Step(after, ret) == MakeParents(fs, dirs)
  {
    ret, after := true, fs;
    for k := 0 to |dirs|
      invariant Step(after, ret) == MakeParents(fs, dirs[..k])
    {
      assert dirs[..k + 1][..k] == dirs[..k];
      var dirstack := AncestorStack(after, dirs[k]);
      var ok, next := ShiftLoop(dirstack, after);
      ret, after := ret && ok, next;
    }
    assert dirs[..|dirs|] == dirs;
  }

  /** The `while ($newdir = array_shift($dirstack))` loop. */
  method ShiftLoop(stack: seq<string>, fs: Fs) returns (ret: bool, after: Fs)
    ensures Step(after, ret) == Shift(fs, stack)
  {
    var dirstack := stack;
    ret, after := true, fs;
    while dirstack != [] && !Falsy(dirstack[0])
      invariant Shift(fs, stack) == var t := Shift(after, dirstack); Step(t.fs, ret && t.ok)
      decreases |dirstack|
    {
      var newdir := dirstack[0];
      dirstack := dirstack[1..];
      if !IsWriteable(after, Dirname(newdir)) {
        ret := false;
        break;
      }
      if CanMake(after, newdir) {
        after := Made(after, newdir);
      } else {
        ret := false;
      }
    }
  }

  /** The `foreach ($dirs as $dir)` loop without `-p`. */
  method EachLoop(dirs: seq<string>, fs: Fs) returns (ret: bool, after: Fs)
    ensures Step(after, ret) == MakeEach(fs, dirs)
  {
    ret, after := true, fs;
    for k := 0 to |dirs|
      invariant Step(after, ret) == MakeEach(fs, dirs[..k])
    {
      assert dirs[..k + 1][..k] == dirs[..k];
      var dir := dirs[k];
      if Exists(after, dir) || !IsDir(after, dir) {
        if CanMake(after, dir) {
          after := Made(after, dir);
        } else {
          ret := false;
        }
      }
    }
    assert dirs[..|dirs|] == dirs;
  }
}
