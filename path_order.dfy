/**
 * The order `rm -r` deletes directories in: PHP's `rsort` on path strings.
 * Paths are absolute and never numeric strings, so `rsort` compares them
 * byte by byte, as `strcmp` does, and puts the greatest first.
 */
module PathOrder {
  import opened FileTree

  /** `strcmp(a, b) <= 0`: byte-wise lexicographic order, a proper prefix before its extensions. */
  predicate StrLeq(a: string, b: string)
    decreases |a|
  {
    if a == [] then true
    else if b == [] then false
    else if a[0] != b[0] then a[0] < b[0]
    else StrLeq(a[1..], b[1..])
  }

  lemma {:induction false} StrLeqTotal(a: string, b: string)
    ensures StrLeq(a, b) || StrLeq(b, a)
    decreases |a|
  {
    if a != [] && b != [] && a[0] == b[0] {
      StrLeqTotal(a[1..], b[1..]);
    }
  }

  lemma {:induction false} StrLeqAntisymmetric(a: string, b: string)
    requires StrLeq(a, b) && StrLeq(b, a)
    ensures a == b
    decreases |a|
  {
    if a != [] && b != [] {
      StrLeqAntisymmetric(a[1..], b[1..]);
    }
  }

  lemma {:induction false} StrLeqTransitive(a: string, b: string, c: string)
    requires StrLeq(a, b) && StrLeq(b, c)
    ensures StrLeq(a, c)
    decreases |a|
  {
    if a != [] && b != [] && c != [] && a[0] == b[0] && b[0] == c[0] {
      StrLeqTransitive(a[1..], b[1..], c[1..]);
    }
  }

  /** A path sorts no later than any path that extends it. */
  lemma {:induction false} PrefixSortsFirst(a: string, b: string)
    requires a <= b
    ensures StrLeq(a, b)
    decreases |a|
  {
    if a != [] {
      assert a[1..] <= b[1..];
      PrefixSortsFirst(a[1..], b[1..]);
    }
  }

  /** Greatest first. */
  ghost predicate Descending(r: seq<string>) {
    forall i, j :: 0 <= i < j < |r| ==> StrLeq(r[j], r[i])
  }

  function Insert(x: string, r: seq<string>): (r': seq<string>)
    requires Descending(r)
    ensures multiset(r') == multiset(r) + multiset{x}
    ensures Descending(r')
  {
    if r == [] then [x]
    else if StrLeq(r[0], x) then
      assert forall j :: 0 < j < |r| ==> StrLeq(r[j], x) by {
        forall j | 0 < j < |r| { StrLeqTransitive(r[j], r[0], x); }
      }
      [x] + r
    else
      StrLeqTotal(r[0], x);
      var t := Insert(x, r[1..]);
      assert r == [r[0]] + r[1..];
      assert forall y :: y in t ==> StrLeq(y, r[0]) by {
        forall y | y in t
          ensures StrLeq(y, r[0])
        {
          assert y in multiset(t);
          if y != x {
            assert y in multiset(r[1..]);
          }
        }
      }
      [r[0]] + t
  }

  /** `rsort($dirs)`: the same strings, greatest first. */
  function RSort(s: seq<string>): (r: seq<string>)
    ensures multiset(r) == multiset(s)
    ensures |r| == |s|
    ensures Descending(r)
  {
    if s == [] then []
    else
      assert s == [s[0]] + s[1..];
      Insert(s[0], RSort(s[1..]))
  }

  /** Sorting keeps exactly the paths it is given. */
  lemma RSortMembers(s: seq<string>)
    ensures forall p :: p in RSort(s) <==> p in s
  {
    var r := RSort(s);
    forall p
      ensures p in r <==> p in s
    {
      assert p in r <==> p in multiset(r);
      assert p in s <==> p in multiset(s);
    }
  }

  /**
   * The safety property of `rm -r`: in a descending list a path comes after
   * every listed path that extends it, so a directory is handled only after
   * everything listed below it.
   */
  lemma DescendingPutsExtensionsFirst(r: seq<string>, i: int, j: int)
    requires Descending(r) && 0 <= i < |r| && 0 <= j < |r|
    requires r[i] < r[j]
    ensures j < i
  {
    if i < j {
      PrefixSortsFirst(r[i], r[j]);
      StrLeqAntisymmetric(r[i], r[j]);
    }
  }

  lemma {:induction false} NoDupCount<T>(s: seq<T>, x: T)
    requires NoDup(s)
    ensures multiset(s)[x] <= 1
  {
    if s != [] {
      assert s == s[..|s| - 1] + [s[|s| - 1]];
      NoDupCount(s[..|s| - 1], x);
      if x == s[|s| - 1] {
        assert x !in s[..|s| - 1];
      }
    }
  }

  lemma {:induction false} CountNoDup<T>(s: seq<T>)
    requires forall x :: multiset(s)[x] <= 1
    ensures NoDup(s)
  {
    forall i, j | 0 <= i < j < |s|
      ensures s[i] != s[j]
    {
      assert s == s[..j] + [s[j]] + s[j + 1..];
      assert multiset(s)[s[j]] == multiset(s[..j])[s[j]] + 1 + multiset(s[j + 1..])[s[j]];
      assert s[i] in multiset(s[..j]);
    }
  }

  /** Sorting neither loses nor repeats a path. */
  lemma RSortNoDup(s: seq<string>)
    requires NoDup(s)
    ensures NoDup(RSort(s))
  {
    forall x { NoDupCount(s, x); }
    CountNoDup(RSort(s));
  }
}
