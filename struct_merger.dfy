/**
 * `_multipleToStruct`: the listing of several arguments, as `rm -r` uses it.
 * Each argument that is a real directory is walked without a depth limit and
 * its listing is put IN FRONT of what was gathered so far
 * (`array_merge_recursive($tmp, $struct)`); any other argument is appended
 * to `files` unless it is already there.
 */
module StructMerger {
  import opened FileTree
  import opened TreeWalker
  import opened PathOrder

  /** `is_dir($file) && !is_link($file)` for an argument, given what the filesystem holds at each path. */
  predicate IsDirArg(at: map<string, Node>, arg: string) {
    arg in at && IsRealDir(at[arg])
  }

  /** One pass of the `foreach ($files as $file)` loop. */
  function MergeStep(acc: Listing, arg: string, at: map<string, Node>): Listing {
    if IsDirArg(at, arg) then MergeRecursive(Walk(arg, at[arg], 0, 0), acc)
    else if arg in acc.files then acc
    else Listing(acc.dirs, acc.files + [arg])
  }

  /** The listing `_multipleToStruct($args)` returns. */
  function Merged(args: seq<string>, at: map<string, Node>): Listing {
    if args == [] then Empty
    else MergeStep(Merged(args[..|args| - 1], at), args[|args| - 1], at)
  }

  /** `_multipleToStruct($files)`; the walker's warnings go to the warning channel and are returned. */
  method MultipleToStruct(files: seq<string>, at: map<string, Node>) returns (struct: Listing, warnings: seq<string>)
    ensures struct == Merged(files, at)
    ensures warnings == MergedWarnings(files, at)
  {
    struct := Empty;
    warnings := [];
    var i := 0;
    while i < |files|
      invariant 0 <= i <= |files|
      invariant struct == Merged(files[..i], at)
      invariant warnings == MergedWarnings(files[..i], at)
    {
      var file := files[i];
      assert files[..i + 1][..i] == files[..i];
      if IsDirArg(at, file) {
        var tmp, w := DirToStruct(file, at[file], 0, 0, false);
        struct := MergeRecursive(tmp, struct);
        warnings := warnings + w;
      } else if file !in struct.files {
        struct := Listing(struct.dirs, struct.files + [file]);
      }
      i := i + 1;
    }
    assert files[..i] == files;
  }

  /**
   * The warnings of `_multipleToStruct($files)`: the walk of each directory
   * argument is not silent, so it warns about every directory it cannot
   * open, argument after argument.
   */
  function MergedWarnings(args: seq<string>, at: map<string, Node>): seq<string> {
    if args == [] then []
    else
      var arg := args[|args| - 1];
      MergedWarnings(args[..|args| - 1], at) + (if IsDirArg(at, arg) then Unopened(arg, at[arg], 0, 0) else [])
  }

  /** Directory arguments whose trees open everywhere raise no warning. */
  lemma {:induction false} ReadableArgsNoWarnings(args: seq<string>, at: map<string, Node>)
    requires forall a :: a in args && IsDirArg(at, a) ==> FullyReadable(at[a])
    ensures MergedWarnings(args, at) == []
  {
    if args != [] {
      var init, arg := args[..|args| - 1], args[|args| - 1];
      assert forall a :: a in init ==> a in args;
      ReadableArgsNoWarnings(init, at);
      if IsDirArg(at, arg) {
        ReadableNoWarnings(arg, at[arg], 0, 0);
      }
    }
  }

  /** The walks of the directory arguments, last argument first. */
  function ReversedWalks(args: seq<string>, at: map<string, Node>): Listing {
    if args == [] then Empty
    else
      var arg := args[|args| - 1];
      MergeRecursive(if IsDirArg(at, arg) then Walk(arg, at[arg], 0, 0) else Empty,
                     ReversedWalks(args[..|args| - 1], at))
  }

  /** The arguments that are not real directories (files, links and missing paths). */
  function OtherArgs(args: seq<string>, at: map<string, Node>): (r: seq<string>)
    ensures forall x :: x in r <==> x in args && !IsDirArg(at, x)
  {
    if args == [] then []
    else
      var arg := args[|args| - 1];
      OtherArgs(args[..|args| - 1], at) + (if IsDirArg(at, arg) then [] else [arg])
  }

  /**
   * The other arguments `files` ends with: each non-directory argument in
   * argument order, left out when it repeats an earlier non-directory
   * argument or is a file of the walk of an earlier directory argument.
   */
  function Fresh(args: seq<string>, at: map<string, Node>): seq<string> {
    if args == [] then []
    else
      var init, arg := args[..|args| - 1], args[|args| - 1];
      Fresh(init, at) +
      (if IsDirArg(at, arg) || arg in OtherArgs(init, at) || arg in ReversedWalks(init, at).files then [] else [arg])
  }

  /** An argument is added exactly when it is a non-directory argument that no earlier argument put in `files`. */
  lemma {:induction false} FreshMembers(args: seq<string>, at: map<string, Node>)
    ensures NoDup(Fresh(args, at))
    ensures forall x :: x in Fresh(args, at) ==> x in OtherArgs(args, at)
    ensures forall x :: x in OtherArgs(args, at) ==> x in Fresh(args, at) || x in ReversedWalks(args, at).files
  {
    if args != [] {
      var init, arg := args[..|args| - 1], args[|args| - 1];
      FreshMembers(init, at);
      var f := Fresh(init, at);
      if !(IsDirArg(at, arg) || arg in OtherArgs(init, at) || arg in ReversedWalks(init, at).files) {
        NoDupAppend(f, [arg]);
      }
      if IsDirArg(at, arg) {
        WalksGrow(args, at);
      } else {
        assert ReversedWalks(args, at).files == ReversedWalks(init, at).files;
      }
    }
  }

  lemma WalksGrow(args: seq<string>, at: map<string, Node>)
    requires args != []
    ensures forall x :: x in ReversedWalks(args[..|args| - 1], at).files ==> x in ReversedWalks(args, at).files
  {
  }

  /**
   * The merged listing as a whole: `dirs` is the walks' directories in
   * reverse argument order, `files` their files in the same order followed
   * by the fresh other arguments.
   */
  lemma {:induction false} MergedFiles(args: seq<string>, at: map<string, Node>)
    ensures Merged(args, at).dirs == ReversedWalks(args, at).dirs
    ensures Merged(args, at).files == ReversedWalks(args, at).files + Fresh(args, at)
  {
    if args != [] {
      var init, arg := args[..|args| - 1], args[|args| - 1];
      MergedFiles(init, at);
      FreshMembers(init, at);
      if IsDirArg(at, arg) {
        DirArgStep(args, at);
      } else {
        OtherArgStep(args, at);
      }
    }
  }

  /** A directory argument puts its walk in front of both the listing and the directory walks. */
  lemma DirArgStep(args: seq<string>, at: map<string, Node>)
    requires args != [] && IsDirArg(at, args[|args| - 1])
    requires var init := args[..|args| - 1];
             Merged(init, at).dirs == ReversedWalks(init, at).dirs &&
             Merged(init, at).files == ReversedWalks(init, at).files + Fresh(init, at)
    ensures Merged(args, at).dirs == ReversedWalks(args, at).dirs
    ensures Merged(args, at).files == ReversedWalks(args, at).files + Fresh(args, at)
  {
    var init, arg := args[..|args| - 1], args[|args| - 1];
    var w, rw, f := Walk(arg, at[arg], 0, 0), ReversedWalks(init, at), Fresh(init, at);
    assert Fresh(args, at) == f;
    assert Merged(args, at).files == w.files + (rw.files + f);
    AppendAssoc(w.files, rw.files, f);
  }

  /** Any other argument leaves the directory walks alone and is added exactly when it is fresh. */
  lemma OtherArgStep(args: seq<string>, at: map<string, Node>)
    requires args != [] && !IsDirArg(at, args[|args| - 1])
    requires var init := args[..|args| - 1];
             Merged(init, at).dirs == ReversedWalks(init, at).dirs &&
             Merged(init, at).files == ReversedWalks(init, at).files + Fresh(init, at) &&
             (forall x :: x in Fresh(init, at) ==> x in OtherArgs(init, at)) &&
             (forall x :: x in OtherArgs(init, at) ==> x in Fresh(init, at) || x in ReversedWalks(init, at).files)
    ensures Merged(args, at).dirs == ReversedWalks(args, at).dirs
    ensures Merged(args, at).files == ReversedWalks(args, at).files + Fresh(args, at)
  {
    var init, arg := args[..|args| - 1], args[|args| - 1];
    var acc, rw, f := Merged(init, at), ReversedWalks(init, at), Fresh(init, at);
    assert ReversedWalks(args, at) == MergeRecursive(Empty, rw);
    assert ReversedWalks(args, at) == rw;
    assert arg in acc.files <==> arg in OtherArgs(init, at) || arg in rw.files;
    if arg !in acc.files {
      AppendAssoc(rw.files, f, [arg]);
    }
  }

  /**
   * What the merged listing holds: `dirs` is exactly the concatenated walks
   * of the directory arguments in reverse argument order; `files` starts
   * with their files in the same order and ends with exactly the fresh other
   * arguments, each at most once and only those, and every other argument
   * is there.
   */
  lemma MergedContents(args: seq<string>, at: map<string, Node>)
    ensures Merged(args, at).dirs == ReversedWalks(args, at).dirs
    ensures ReversedWalks(args, at).files <= Merged(args, at).files
    ensures var added := Merged(args, at).files[|ReversedWalks(args, at).files|..];
            added == Fresh(args, at) &&
            NoDup(added) && (forall x :: x in added ==> x in OtherArgs(args, at))
    ensures forall x :: x in OtherArgs(args, at) ==> x in Merged(args, at).files
  {
    MergedFiles(args, at);
    FreshMembers(args, at);
    var rw, f := ReversedWalks(args, at).files, Fresh(args, at);
    assert (rw + f)[|rw|..] == f;
  }
}
