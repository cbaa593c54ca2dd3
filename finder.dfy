/**
 * `find`: the first argument is the starting directory; the options after
 * it select directories or files (`-type`), limit the depth (`-maxdepth`)
 * and filter names by glob (`-name`, repeatable). The walk is the silent
 * `_dirToStruct` walk of the resolved start directory.
 *
 * `realpath` is given as a map from argument text to canonical path; a text
 * it has no entry for is one `realpath` fails on.
 */
module Finder {
  import opened FileTree
  import opened TreeWalker
  import opened Glob
  import opened CommandLine

  /** What the option loop gathers: one fragment per `-name`, the depth value, and the two `-type` flags. */
  datatype Options = Options(patterns: seq<string>, depth: int, doFiles: bool, doDirs: bool)

  const NoOptions := Options([], 0, true, true)

  /** `$args[$i+1]`; past the end PHP reads null, which every use below treats as "". */
  function Next(args: seq<string>, i: nat): string {
    if i + 1 < |args| then args[i + 1] else ""
  }

  predicate IsDigit(c: char) {
    '0' as int <= c as int <= '9' as int
  }

  function DigitsValue(ds: string): (v: nat)
    requires forall i :: 0 <= i < |ds| ==> IsDigit(ds[i])
  {
    if ds == [] then 0
    else
      assert IsDigit(ds[|ds| - 1]);
      DigitsValue(ds[..|ds| - 1]) * 10 + (ds[|ds| - 1] as int - '0' as int)
  }

  predicate AllDigits(ds: string) {
    ds != [] && forall i :: 0 <= i < |ds| ==> IsDigit(ds[i])
  }

  /**
   * The depth a `-maxdepth` value stands for in the walker's comparisons
   * `$aktinst < $maxinst || $maxinst == 0`: an integer string (optional sign,
   * then digits) compares as its number; a missing value is null, which
   * compares like 0.
   */
  function DepthValue(t: string): int {
    if AllDigits(t) then DigitsValue(t)
    else if |t| >= 2 && t[0] == '-' && AllDigits(t[1..]) then -(DigitsValue(t[1..]) as int)
    else if |t| >= 2 && t[0] == '+' && AllDigits(t[1..]) then DigitsValue(t[1..])
    else 0
  }

  /**
   * The option loop from index `i` on. `-type` and `-name` consume the next
   * token whatever it is; `-maxdepth` reads it but leaves it to be looked at
   * again as an option; every other token is ignored.
   */
  function ScanFrom(args: seq<string>, i: nat, o: Options): Options
    decreases |args| - i
  {
    if i >= |args| then o
    else if args[i] == "-type" then
      var t := Next(args, i);
      ScanFrom(args, i + 2, if t == "d" then o.(doFiles := false) else if t == "f" then o.(doDirs := false) else o)
    else if args[i] == "-name" then
      ScanFrom(args, i + 2, o.(patterns := o.patterns + [Fragment(Next(args, i))]))
    else if args[i] == "-maxdepth" then
      ScanFrom(args, i + 1, o.(depth := DepthValue(Next(args, i))))
    else ScanFrom(args, i + 1, o)
  }

  /** The `for ($i = 0; $i < $args_count; $i++)` loop over the arguments after the start directory. */
  method ScanOptions(args: seq<string>) returns (o: Options)
    ensures o == ScanFrom(args, 0, NoOptions)
  {
    o := NoOptions;
    var i := 0;
    while i < |args|
      invariant ScanFrom(args, i, o) == ScanFrom(args, 0, NoOptions)
      decreases |args| - i
    {
      var next := if i + 1 < |args| then args[i + 1] else "";
      if args[i] == "-type" {
        if next == "d" {
          o := o.(doFiles := false);
        } else if next == "f" {
          o := o.(doDirs := false);
        }
        i := i + 1;
      } else if args[i] == "-name" {
        var name := Fragment(next);
        o := o.(patterns := o.patterns + [name]);
        i := i + 1;
      } else if args[i] == "-maxdepth" {
        o := o.(depth := DepthValue(next));
      }
      i := i + 1;
    }
  }

  predicate IsOption(t: string) {
    t == "-type" || t == "-name" || t == "-maxdepth"
  }

  /** Tokens that are not options change nothing. */
  lemma {:induction false} ScanIgnoresOthers(args: seq<string>, i: nat, o: Options)
    requires forall k :: i <= k < |args| ==> !IsOption(args[k])
    ensures ScanFrom(args, i, o) == o
    decreases |args| - i
  {
    if i < |args| {
      ScanIgnoresOthers(args, i + 1, o);
    }
  }

  /** The scan of a suffix does not depend on what comes before it. */
  lemma {:induction false} ScanShift(a: seq<string>, b: seq<string>, i: nat, o: Options)
    ensures ScanFrom(a + b, |a| + i, o) == ScanFrom(b, i, o)
    decreases |b| - i
  {
    if i < |b| {
      var ab := a + b;
      assert ab[|a| + i] == b[i];
      assert Next(ab, |a| + i) == Next(b, i);
      var t := Next(b, i);
      if b[i] == "-type" {
        ScanShift(a, b, i + 2, if t == "d" then o.(doFiles := false) else if t == "f" then o.(doDirs := false) else o);
      } else if b[i] == "-name" {
        ScanShift(a, b, i + 2, o.(patterns := o.patterns + [Fragment(t)]));
      } else if b[i] == "-maxdepth" {
        ScanShift(a, b, i + 1, o.(depth := DepthValue(t)));
      } else {
        ScanShift(a, b, i + 1, o);
      }
    }
  }

  /**
   * `-type t` sets the flag `t` names and then goes on after `t`, whatever
   * `t` is: a `t` that is itself an option is swallowed unread.
   */
  lemma TypeSkipsItsValue(t: string, rest: seq<string>, o: Options)
    ensures t == "d" ==> ScanFrom(["-type", t] + rest, 0, o) == ScanFrom(rest, 0, o.(doFiles := false))
    ensures t == "f" ==> ScanFrom(["-type", t] + rest, 0, o) == ScanFrom(rest, 0, o.(doDirs := false))
    ensures t != "d" && t != "f" ==> ScanFrom(["-type", t] + rest, 0, o) == ScanFrom(rest, 0, o)
  {
    var o' := if t == "d" then o.(doFiles := false) else if t == "f" then o.(doDirs := false) else o;
    assert (["-type", t] + rest)[0] == "-type";
    ScanShift(["-type", t], rest, 0, o');
  }

  /** `-name t` adds the fragment of `t` and goes on after `t`, whatever `t` is. */
  lemma NameTakesItsValue(t: string, rest: seq<string>, o: Options)
    ensures ScanFrom(["-name", t] + rest, 0, o) == ScanFrom(rest, 0, o.(patterns := o.patterns + [Fragment(t)]))
  {
    assert (["-name", t] + rest)[0] == "-name";
    ScanShift(["-name", t], rest, 0, o.(patterns := o.patterns + [Fragment(t)]));
  }

  /**
   * `-maxdepth` does not skip its value: it takes the depth from the next
   * token (null, read as 0, when there is none) and then scans that token
   * again as an option.
   */
  lemma MaxdepthKeepsItsValue(rest: seq<string>, o: Options)
    ensures ScanFrom(["-maxdepth"] + rest, 0, o) ==
            ScanFrom(rest, 0, o.(depth := DepthValue(if rest == [] then "" else rest[0])))
  {
    var ar := ["-maxdepth"] + rest;
    assert ar[0] == "-maxdepth";
    assert Next(ar, 0) == if rest == [] then "" else rest[0];
    ScanShift(["-maxdepth"], rest, 0, o.(depth := DepthValue(Next(ar, 0))));
  }

  /** `-name` as the last token adds the empty pattern, whatever was gathered before. */
  lemma TrailingName(args: seq<string>, o: Options)
    requires args != [] && args[|args| - 1] == "-name"
    ensures ScanFrom(args, |args| - 1, o) == o.(patterns := o.patterns + [""])
  {
    assert PregQuote("") == [];
  }

  /** Both `-type` values given: neither list is selected alone, and files win. */
  lemma BothTypes()
    ensures var o := ScanFrom(["-type", "d", "-type", "f"], 0, NoOptions);
            !o.doFiles && !o.doDirs
  {
  }

  /** The candidates: everything (files first), or directories for `-type d` alone, or else files. */
  function Candidates(l: Listing, o: Options): seq<string> {
    if o.doFiles && o.doDirs then l.files + l.dirs else if o.doDirs then l.dirs else l.files
  }

  /** The combined pattern of the gathered fragments. */
  function Pattern(patterns: seq<string>): seq<Branch> {
    Combine(seq(|patterns|, i requires 0 <= i < |patterns| => Parse(patterns[i])))
  }

  /** The candidates whose basename the pattern matches, in their order. */
  function Keep(rx: seq<Branch>, cs: seq<string>): seq<string> {
    if cs == [] then []
    else Keep(rx, cs[..|cs| - 1]) + (if RegexMatch(rx, Basename(cs[|cs| - 1])) then [cs[|cs| - 1]] else [])
  }

  /** `idx` picks the elements of `a` out of `b`, in increasing positions. */
  predicate Picks<T(==)>(idx: seq<int>, a: seq<T>, b: seq<T>) {
    |idx| == |a| &&
    (forall k :: 0 <= k < |idx| ==> 0 <= idx[k] < |b| && b[idx[k]] == a[k]) &&
    (forall k, m :: 0 <= k < m < |idx| ==> idx[k] < idx[m])
  }

  /** The filter keeps its candidates in their order: the result is picked out of them at increasing positions. */
  lemma {:induction false} KeepIsSubsequence(rx: seq<Branch>, cs: seq<string>) returns (idx: seq<int>)
    ensures Picks(idx, Keep(rx, cs), cs)
  {
    if cs == [] {
      idx := [];
    } else {
      var init, x := cs[..|cs| - 1], cs[|cs| - 1];
      var pre := KeepIsSubsequence(rx, init);
      var k := Keep(rx, init);
      if RegexMatch(rx, Basename(x)) {
        assert Keep(rx, cs) == k + [x];
        idx := pre + [|cs| - 1];
        assert forall j :: 0 <= j < |pre| ==> pre[j] < |init| && cs[pre[j]] == init[pre[j]];
      } else {
        assert Keep(rx, cs) == k;
        idx := pre;
        assert forall j :: 0 <= j < |pre| ==> pre[j] < |init| && cs[pre[j]] == init[pre[j]];
      }
    }
  }

  /** The elements of `cs` that lie in `names`, in their order. */
  ghost function FilterIn(cs: seq<string>, names: iset<string>): seq<string> {
    if cs == [] then []
    else FilterIn(cs[..|cs| - 1], names) + (if cs[|cs| - 1] in names then [cs[|cs| - 1]] else [])
  }

  /** The names whose basename the pattern matches. */
  ghost function Matching(rx: seq<Branch>): iset<string> {
    iset s | RegexMatch(rx, Basename(s))
  }

  lemma {:induction false} KeepIsFilter(rx: seq<Branch>, cs: seq<string>)
    ensures Keep(rx, cs) == FilterIn(cs, Matching(rx))
  {
    if cs != [] {
      KeepIsFilter(rx, cs[..|cs| - 1]);
      var y := cs[|cs| - 1];
      assert y in Matching(rx) <==> RegexMatch(rx, Basename(y));
    }
  }

  lemma {:induction false} FilterCounts(cs: seq<string>, names: iset<string>, x: string)
    ensures multiset(FilterIn(cs, names))[x] == if x in names then multiset(cs)[x] else 0
  {
    if cs != [] {
      var init, y := cs[..|cs| - 1], cs[|cs| - 1];
      FilterCounts(init, names, x);
      assert cs == init + [y];
      CountStep(FilterIn(init, names), init, y, y in names, x, x in names);
    }
  }

  /** The filter keeps each matching candidate as often as it is listed, and nothing else. */
  lemma KeepCounts(rx: seq<Branch>, cs: seq<string>, x: string)
    ensures multiset(Keep(rx, cs))[x] == if RegexMatch(rx, Basename(x)) then multiset(cs)[x] else 0
  {
    KeepIsFilter(rx, cs);
    FilterCounts(cs, Matching(rx), x);
    assert x in Matching(rx) <==> RegexMatch(rx, Basename(x));
  }

  /** One more candidate `y`, kept or not, keeps the count of `x` right. */
  lemma CountStep(k: seq<string>, init: seq<string>, y: string, keepY: bool, x: string, keepX: bool)
    requires y == x ==> keepY == keepX
    requires multiset(k)[x] == if keepX then multiset(init)[x] else 0
    ensures multiset(k + if keepY then [y] else [])[x] == if keepX then multiset(init + [y])[x] else 0
  {
    assert multiset(init + [y]) == multiset(init) + multiset{y};
    var tail := if keepY then [y] else [];
    assert multiset(k + tail) == multiset(k) + multiset(tail);
  }

  /** A path is kept exactly when it is a candidate whose basename the pattern matches. */
  lemma KeepMembers(rx: seq<Branch>, cs: seq<string>, x: string)
    ensures x in Keep(rx, cs) <==> x in cs && RegexMatch(rx, Basename(x))
  {
    KeepCounts(rx, cs, x);
  }

  /** The basename filter loop. */
  method KeepMatching(rx: seq<Branch>, files: seq<string>) returns (ret: seq<string>)
    ensures ret == Keep(rx, files)
  {
    ret := [];
    for i := 0 to |files|
      invariant ret == Keep(rx, files[..i])
    {
      assert files[..i + 1][..i] == files[..i];
      var filepart := Basename(files[i]);
      if RegexMatch(rx, filepart) {
        ret := ret + [files[i]];
      }
    }
    assert files[..|files|] == files;
  }

  /** The first argument, removed by `array_shift`; null when there is none, which `realpath` reads as "". */
  function StartArg(a: seq<string>): string {
    if a == [] then "" else a[0]
  }

  function OptionArgs(a: seq<string>): seq<string> {
    if a == [] then [] else a[1..]
  }

  /** What the walker finds at a resolved path; a path the map leaves out is not a directory. */
  function NodeAt(at: map<string, Node>, p: string): Node {
    if p in at then at[p] else File
  }

  /** `!$dir` for the result of `realpath`. */
  predicate Resolves(resolved: map<string, string>, arg: string) {
    arg in resolved && resolved[arg] != "" && resolved[arg] != "0"
  }

  /** The whole of `find` as one function of its inputs. */
  function FindResult(args: Args, resolved: map<string, string>, at: map<string, Node>): seq<string> {
    var a := ArgList(args);
    var start := StartArg(a);
    if !Resolves(resolved, start) then []
    else
      var dir := resolved[start];
      var o := ScanFrom(OptionArgs(a), 0, NoOptions);
      var cs := Candidates(Walk(dir, NodeAt(at, dir), o.depth, 0), o);
      if o.patterns == [] then cs else Keep(Pattern(o.patterns), cs)
  }

  method Find(args: Args, resolved: map<string, string>, at: map<string, Node>) returns (found: seq<string>)
    ensures found == FindResult(args, resolved, at)
  {
    var a := ArgList(args);
    var start := if a == [] then "" else a[0];
    var rest := if a == [] then [] else a[1..];
    if !(start in resolved && resolved[start] != "" && resolved[start] != "0") {
      return [];
    }
    var dir := resolved[start];
    var o := ScanOptions(rest);
    var path, _ := DirToStruct(dir, NodeAt(at, dir), o.depth, 0, true);
    var files;
    if o.doFiles && o.doDirs {
      files := path.files + path.dirs;
    } else if o.doDirs {
      files := path.dirs;
    } else {
      files := path.files;
    }
    if |o.patterns| > 0 {
      found := KeepMatching(Pattern(o.patterns), files);
      return;
    }
    found := files;
  }

  /**
   * What `find` returns: nothing when the start directory does not resolve;
   * otherwise the candidates of the walk, unfiltered when there is no
   * `-name`, else exactly the candidates whose basename matches, in order and
   * with their multiplicity.
   */
  lemma FindCases(args: Args, resolved: map<string, string>, at: map<string, Node>) returns (idx: seq<int>)
    ensures var a := ArgList(args);
            var start := StartArg(a);
            var r := FindResult(args, resolved, at);
            (!Resolves(resolved, start) ==> r == []) &&
            (Resolves(resolved, start) ==>
               var dir := resolved[start];
               var o := ScanFrom(OptionArgs(a), 0, NoOptions);
               var cs := Candidates(Walk(dir, NodeAt(at, dir), o.depth, 0), o);
               (o.patterns == [] ==> r == cs) &&
               (o.patterns != [] ==>
                  Picks(idx, r, cs) &&
                  forall x :: multiset(r)[x] == if RegexMatch(Pattern(o.patterns), Basename(x)) then multiset(cs)[x] else 0))
  {
    idx := [];
    var a := ArgList(args);
    var start := StartArg(a);
    if Resolves(resolved, start) {
      var dir := resolved[start];
      var o := ScanFrom(OptionArgs(a), 0, NoOptions);
      var cs := Candidates(Walk(dir, NodeAt(at, dir), o.depth, 0), o);
      if o.patterns != [] {
        idx := KeepIsSubsequence(Pattern(o.patterns), cs);
        forall x {
          KeepCounts(Pattern(o.patterns), cs, x);
        }
      }
    }
  }

  /** With one `-name g`, a candidate without newlines is found exactly when its basename matches `g` as a glob. */
  lemma KeepOneName(g: string, cs: seq<string>, x: string)
    requires NoNewline(x)
    ensures x in Keep(Pattern([Fragment(g)]), cs) <==> x in cs && GlobMatch(g, Basename(x))
  {
    var ps := [Fragment(g)];
    assert seq(|ps|, i requires 0 <= i < |ps| => Parse(ps[i])) == [Parse(Fragment(g))];
    assert NoNewline(Basename(x));
    SinglePattern(g, Basename(x));
    KeepMembers(Pattern(ps), cs, x);
  }
}
