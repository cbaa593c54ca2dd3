/**
 * `which`: the full path of a program, found by trying every executable
 * suffix against every search directory and returning the first candidate
 * that passes the executability test.
 *
 * The environment (safe mode, `PATH`, the platform, `PATHEXT`) and the
 * executability test are parameters.
 */
module Which {
  import opened FileTree
  import opened PhpPath

  datatype Env = Env(
    safeMode: bool,          // ini_get('safe_mode') is truthy
    execDir: string,         // ini_get('safe_mode_exec_dir')
    pathVar: string,         // getenv('PATH'), "" when unset
    pathVarAlt: string,      // getenv('Path'), "" when unset
    windows: bool,           // OS_WINDOWS
    pathExt: string,         // getenv('PATHEXT'), "" when unset
    executable: set<string>) // the paths the executability test accepts

  datatype Found = Path(path: string) | Fallback

  /** PHP truthiness of a string. */
  predicate Truthy(s: string) {
    s != "" && s != "0"
  }

  /** `PATH_SEPARATOR`. */
  function PathSep(env: Env): char {
    if env.windows then ';' else ':'
  }

  /** `DIRECTORY_SEPARATOR`. */
  function DirSep(env: Env): char {
    if env.windows then '\\' else '/'
  }

  // ---------------------------------------------------------------------
  // `explode`.
  // ---------------------------------------------------------------------

  /** `explode($sep, $s)`: the pieces between the separators; the empty string is one empty piece. */
  function Explode(sep: char, s: string): (ps: seq<string>)
    ensures |ps| >= 1
    ensures forall i :: 0 <= i < |ps| ==> sep !in ps[i]
  {
    if s == [] then [[]]
    else
      var e := Explode(sep, s[..|s| - 1]);
      var c := s[|s| - 1];
      if c == sep then e + [[]]
      else e[..|e| - 1] + [e[|e| - 1] + [c]]
  }

  /** `implode($sep, $ps)`. */
  function Implode(sep: char, ps: seq<string>): string {
    if ps == [] then []
    else if |ps| == 1 then ps[0]
    else Implode(sep, ps[..|ps| - 1]) + [sep] + ps[|ps| - 1]
  }

  /** Joining the pieces with the separator gives the string back. */
  lemma {:induction false} ImplodeExplode(sep: char, s: string)
    ensures Implode(sep, Explode(sep, s)) == s
  {
    if s != [] {
      var init, c := s[..|s| - 1], s[|s| - 1];
      var e := Explode(sep, init);
      ImplodeExplode(sep, init);
      if c == sep {
        assert (e + [[]])[..|e|] == e;
      } else {
        var e' := e[..|e| - 1] + [e[|e| - 1] + [c]];
        assert e'[..|e'| - 1] == e[..|e| - 1];
        if |e| > 1 {
          assert Implode(sep, e) == Implode(sep, e[..|e| - 1]) + [sep] + e[|e| - 1];
        }
      }
      assert init + [c] == s;
    }
  }

  // ---------------------------------------------------------------------
  // The candidates.
  // ---------------------------------------------------------------------

  /** The search path: the safe-mode directory, else `PATH`, else `Path`. */
  function SearchPath(env: Env): string {
    if env.safeMode && Truthy(env.execDir) then env.execDir
    else if Truthy(env.pathVar) then env.pathVar
    else env.pathVarAlt
  }

  /** Where to look and for what name: a name with a directory part is looked for only in that directory. */
  function SearchDirs(program: string, env: Env): (string, seq<string>) {
    if PhpBasename(program) != program then (PhpBasename(program), [Dirname(program)])
    else (program, Explode(PathSep(env), SearchPath(env)))
  }

  /** The suffixes to try, in order. */
  function Suffixes(name: string, env: Env): seq<string> {
    if !env.windows then [""]
    else
      var sufs := if Truthy(env.pathExt) then Explode(PathSep(env), env.pathExt) else [".exe", ".bat", ".cmd", ".com"];
      if '.' in name then [""] + sufs else sufs
  }

  function Candidate(dir: string, sep: char, name: string, suf: string): string {
    dir + [sep] + name + suf
  }

  /** All candidates with one suffix, in directory order. */
  function Row(dirs: seq<string>, sep: char, name: string, suf: string): (r: seq<string>)
    ensures |r| == |dirs|
    ensures forall j :: 0 <= j < |dirs| ==> r[j] == Candidate(dirs[j], sep, name, suf)
  {
    seq(|dirs|, j requires 0 <= j < |dirs| => Candidate(dirs[j], sep, name, suf))
  }

  /** Suffix-major: every directory with the first suffix, then every directory with the next. */
  function Candidates(dirs: seq<string>, sep: char, name: string, sufs: seq<string>): seq<string> {
    if sufs == [] then []
    else Candidates(dirs, sep, name, sufs[..|sufs| - 1]) + Row(dirs, sep, name, sufs[|sufs| - 1])
  }

  /** How many candidates come before the first one with suffix `i`: `i * m` for `m` directories. */
  function Tried(i: nat, m: nat): nat {
    if i == 0 then 0 else Tried(i - 1, m) + m
  }

  lemma {:induction false} CandidatesLength(dirs: seq<string>, sep: char, name: string, sufs: seq<string>)
    ensures |Candidates(dirs, sep, name, sufs)| == Tried(|sufs|, |dirs|)
  {
    if sufs != [] {
      CandidatesLength(dirs, sep, name, sufs[..|sufs| - 1]);
    }
  }

  /** The candidate for suffix `i` and directory `j` is tried `i * |dirs| + j`-th. */
  lemma {:induction false} CandidateAt(dirs: seq<string>, sep: char, name: string, sufs: seq<string>, i: nat, j: nat)
    requires i < |sufs| && j < |dirs|
    ensures Tried(i, |dirs|) + j < |Candidates(dirs, sep, name, sufs)|
    ensures Candidates(dirs, sep, name, sufs)[Tried(i, |dirs|) + j] == Candidate(dirs[j], sep, name, sufs[i])
  {
    var n := |sufs|;
    var init := sufs[..n - 1];
    CandidatesLength(dirs, sep, name, init);
    if i < n - 1 {
      CandidateAt(dirs, sep, name, init, i, j);
      assert init[i] == sufs[i];
    }
  }

  /** The index of the first candidate in `xs`, or -1 when there is none. */
  function FirstIn(cs: seq<string>, xs: set<string>): (k: int)
    ensures -1 <= k < |cs|
    ensures k >= 0 ==> cs[k] in xs
    ensures forall j :: 0 <= j < |cs| && (k < 0 || j < k) ==> cs[j] !in xs
  {
    if cs == [] then -1
    else
      var k := FirstIn(cs[..|cs| - 1], xs);
      if k >= 0 then k else if cs[|cs| - 1] in xs then |cs| - 1 else -1
  }

  /** The candidates `which($program)` tries, in order. */
  function WhichCandidates(program: string, env: Env): seq<string> {
    var (name, dirs) := SearchDirs(program, env);
    Candidates(dirs, DirSep(env), name, Suffixes(name, env))
  }

  /** The first of the candidates that passes the test, if any. */
  function FirstPassing(cs: seq<string>, xs: set<string>): Found {
    var k := FirstIn(cs, xs);
    if k >= 0 then Path(cs[k]) else Fallback
  }

  function WhichResult(program: string, env: Env): Found {
    if program == "" then Fallback else FirstPassing(WhichCandidates(program, env), env.executable)
  }

  /** The nested loops, suffix-major, with their early return. */
  method Search(dirs: seq<string>, sep: char, name: string, sufs: seq<string>, xs: set<string>) returns (r: Found)
    ensures r == FirstPassing(Candidates(dirs, sep, name, sufs), xs)
  {
    ghost var cs := Candidates(dirs, sep, name, sufs);
    ghost var m := |dirs|;
    CandidatesLength(dirs, sep, name, sufs);
    for si := 0 to |sufs|
      invariant forall j :: 0 <= j < Tried(si, m) && j < |cs| ==> cs[j] !in xs
    {
      for di := 0 to |dirs|
        invariant forall j :: 0 <= j < Tried(si, m) + di && j < |cs| ==> cs[j] !in xs
      {
        var file := dirs[di] + [sep] + name + sufs[si];
        CandidateAt(dirs, sep, name, sufs, si, di);
        if file in xs {
          FirstInIs(cs, xs, Tried(si, m) + di);
          return Path(file);
        }
      }
      assert Tried(si + 1, m) == Tried(si, m) + m;
    }
    FirstInNone(cs, xs);
    r := Fallback;
  }

  /** `which($program, $fallback)`. */
  method WhichProgram(program: string, env: Env) returns (r: Found)
    ensures r == WhichResult(program, env)
  {
    if program == "" {
      return Fallback;
    }
    var name, dirs;
    if PhpBasename(program) != program {
      dirs := [Dirname(program)];
      name := PhpBasename(program);
    } else {
      dirs := Explode(PathSep(env), SearchPath(env));
      name := program;
    }
    assert (name, dirs) == SearchDirs(program, env);
    r := Search(dirs, DirSep(env), name, Suffixes(name, env), env.executable);
  }

  lemma FirstInIs(cs: seq<string>, xs: set<string>, k: nat)
    requires k < |cs| && cs[k] in xs
    requires forall j :: 0 <= j < k ==> cs[j] !in xs
    ensures FirstIn(cs, xs) == k
  {
  }

  lemma FirstInNone(cs: seq<string>, xs: set<string>)
    requires forall j :: 0 <= j < |cs| ==> cs[j] !in xs
    ensures FirstIn(cs, xs) == -1
  {
  }

  /**
   * What `which` returns: a candidate that passes the test, with every
   * candidate tried before it failing, or the fallback exactly when the
   * name is empty or no candidate passes.
   */
  lemma WhichFindsFirst(program: string, env: Env) returns (k: int)
    ensures var cs := WhichCandidates(program, env);
            (WhichResult(program, env) == Fallback <==>
               program == "" || forall j :: 0 <= j < |cs| ==> cs[j] !in env.executable) &&
            (WhichResult(program, env).Path? ==>
               0 <= k < |cs| && WhichResult(program, env).path == cs[k] && cs[k] in env.executable &&
               forall j :: 0 <= j < k ==> cs[j] !in env.executable)
  {
    var cs := WhichCandidates(program, env);
    k := FirstPassingIsFirst(cs, env.executable);
  }

  /** The first passing candidate passes, and every candidate before it fails; the fallback means none passes. */
  lemma FirstPassingIsFirst(cs: seq<string>, xs: set<string>) returns (k: int)
    ensures FirstPassing(cs, xs) == Fallback <==> forall j :: 0 <= j < |cs| ==> cs[j] !in xs
    ensures FirstPassing(cs, xs).Path? ==>
              0 <= k < |cs| && FirstPassing(cs, xs).path == cs[k] && cs[k] in xs &&
              forall j :: 0 <= j < k ==> cs[j] !in xs
  {
    k := FirstIn(cs, xs);
  }

  /** A name with a directory part is looked for in that directory only, under its own base name. */
  lemma JoinedNameSearchesItsDirectory(d: string, name: string, env: Env)
    requires d != [] && d[|d| - 1] != Sep
    requires name != [] && NoSep(name)
    ensures SearchDirs(Join(d, name), env) == (name, [d])
  {
    DirnameOfJoin(d, name);
    assert Join(d, name) != name by {
      assert |Join(d, name)| > |name|;
    }
  }

  /** Off Windows the only suffix is the empty one: the candidates are the search directories in order, each joined with the name. */
  lemma UnixCandidates(program: string, env: Env)
    requires !env.windows
    ensures var sd := SearchDirs(program, env);
            var cs := WhichCandidates(program, env);
            |cs| == |sd.1| && forall j :: 0 <= j < |sd.1| ==> cs[j] == sd.1[j] + "/" + sd.0
  {
    var sd := SearchDirs(program, env);
    assert WhichCandidates(program, env) == Candidates(sd.1, DirSep(env), sd.0, Suffixes(sd.0, env));
    UnixRow(sd.1, sd.0, env);
  }

  lemma UnixRow(dirs: seq<string>, name: string, env: Env)
    requires !env.windows
    ensures var cs := Candidates(dirs, DirSep(env), name, Suffixes(name, env));
            |cs| == |dirs| && forall j :: 0 <= j < |dirs| ==> cs[j] == dirs[j] + "/" + name
  {
    assert Suffixes(name, env) == [""];
    assert Candidates(dirs, '/', name, [""]) == Candidates(dirs, '/', name, []) + Row(dirs, '/', name, "");
    assert name + "" == name;
  }

  /** On Windows a name with a dot is tried first as given, in the first directory, before any suffix is added. */
  lemma WindowsDottedNameFirst(dirs: seq<string>, name: string, env: Env)
    requires env.windows && '.' in name && dirs != []
    ensures Candidates(dirs, DirSep(env), name, Suffixes(name, env))[0] == dirs[0] + "\\" + name
  {
    var sufs := Suffixes(name, env);
    CandidateAt(dirs, DirSep(env), name, sufs, 0, 0);
    assert sufs[0] == "";
    assert name + "" == name;
  }
}
