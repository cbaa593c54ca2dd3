/**
 * PHP's `dirname` and `basename` on '/'-separated paths, as the runtime
 * computes them: trailing separators are ignored, a path without a
 * separator lives in ".", and a path made only of separators is "/".
 */
module PhpPath {
  import opened FileTree

  /** The path without its trailing separators. */
  function StripSeps(s: string): (r: string)
    ensures r <= s
    ensures r == [] || r[|r| - 1] != Sep
  {
    if s != [] && s[|s| - 1] == Sep then StripSeps(s[..|s| - 1]) else s
  }

  /** What `StripSeps` drops is separators only. */
  lemma {:induction false} StripSepsDropsSeps(s: string)
    ensures forall i :: |StripSeps(s)| <= i < |s| ==> s[i] == Sep
  {
    if s != [] && s[|s| - 1] == Sep {
      StripSepsDropsSeps(s[..|s| - 1]);
    }
  }

  /** The path without its last component (the separator before it stays). */
  function StripName(s: string): (r: string)
    ensures r <= s
    ensures r == [] || r[|r| - 1] == Sep
  {
    if s != [] && s[|s| - 1] != Sep then StripName(s[..|s| - 1]) else s
  }

  /** What `StripName` drops holds no separator. */
  lemma {:induction false} StripNameDropsName(s: string)
    ensures forall i :: |StripName(s)| <= i < |s| ==> s[i] != Sep
  {
    if s != [] && s[|s| - 1] != Sep {
      StripNameDropsName(s[..|s| - 1]);
    }
  }

  /** `dirname($p)`; the empty path is its own dirname. */
  function Dirname(p: string): string {
    if p == [] then []
    else
      var a := StripSeps(p);
      if a == [] then [Sep]
      else
        var b := StripName(a);
        if b == [] then "."
        else
          var c := StripSeps(b);
          if c == [] then [Sep] else c
  }

  /** `basename($p)`: the last component, trailing separators ignored. */
  function PhpBasename(p: string): (b: string)
    ensures NoSep(b)
  {
    Basename(StripSeps(p))
  }

  lemma StripSepsOfNonSep(s: string)
    requires s == [] || s[|s| - 1] != Sep
    ensures StripSeps(s) == s
  {
  }

  lemma {:induction false} StripNameOfJoin(d: string, name: string)
    requires NoSep(name)
    ensures StripName(Join(d, name)) == d + [Sep]
    decreases |name|
  {
    if name != [] {
      assert Join(d, name)[..|Join(d, name)| - 1] == Join(d, name[..|name| - 1]);
      StripNameOfJoin(d, name[..|name| - 1]);
    } else {
      assert Join(d, name) == d + [Sep];
    }
  }

  /**
   * `dirname` and `basename` take a joined path apart again: the directory
   * (non-empty, without a trailing separator) and the name (non-empty,
   * without a separator).
   */
  lemma DirnameOfJoin(d: string, name: string)
    requires d != [] && d[|d| - 1] != Sep
    requires name != [] && NoSep(name)
    ensures Dirname(Join(d, name)) == d
    ensures PhpBasename(Join(d, name)) == name
  {
    var p := Join(d, name);
    StripSepsOfNonSep(p);
    StripNameOfJoin(d, name);
    assert (d + [Sep])[..|d|] == d;
    StripSepsOfNonSep(d);
    BasenameOfJoin(d, name);
  }

  /** The empty path, "/" and "." are their own dirname. */
  lemma DirnameFixpoints()
    ensures Dirname([]) == []
    ensures Dirname([Sep]) == [Sep]
    ensures Dirname(".") == "."
  {
    assert StripSeps([Sep]) == [];
    assert StripName(".") == [];
  }

  /** A measure that every step to a different dirname decreases. */
  function Height(p: string): nat {
    2 * |p| + (if p == "." then 0 else 1)
  }

  /** A path other than its own dirname is higher than its dirname, so climbing by `dirname` stops. */
  lemma DirnameClimbs(p: string)
    requires Dirname(p) != p
    ensures Height(Dirname(p)) < Height(p)
  {
    var a := StripSeps(p);
    if a != [] {
      var b := StripName(a);
      if b != [] {
        assert |b| < |a| by {
          assert a[|a| - 1] != Sep;
        }
      }
    }
  }
}
