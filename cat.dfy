/**
 * `cat`: concatenates files, either into the returned value or into an
 * output file named after `>` (truncate) or `>>` (append).
 *
 * The filesystem is given as the content of every file `fopen($f, 'r')` can
 * open, and the set of paths `fopen` can open for writing.
 */
module Cat {
  import opened FileTree
  import opened CommandLine

  datatype Mode = Truncate | Append  // 'wb' and 'ab+'

  datatype Redirect = NoRedirect | Redirect(mode: Mode, target: string)

  /** What the argument loop splits the arguments into. */
  datatype Split = Split(files: seq<string>, output: Redirect)

  predicate IsRedirect(t: string) {
    t == ">" || t == ">>"
  }

  /** The argument loop from index `i`: inputs up to the first `>` or `>>`, whose next token (null, read as "", when missing) names the output. */
  function SplitFrom(args: seq<string>, i: nat, files: seq<string>): Split
    decreases |args| - i
  {
    if i >= |args| then Split(files, NoRedirect)
    else if args[i] == ">" then Split(files, Redirect(Truncate, if i + 1 < |args| then args[i + 1] else ""))
    else if args[i] == ">>" then Split(files, Redirect(Append, if i + 1 < |args| then args[i + 1] else ""))
    else SplitFrom(args, i + 1, files + [args[i]])
  }

  function SplitArgs(args: seq<string>): Split {
    SplitFrom(args, 0, [])
  }

  /** The `for` loop with its `break`. */
  method SplitLoop(args: seq<string>) returns (sp: Split)
    ensures sp == SplitArgs(args)
  {
    var files := [];
    for i := 0 to |args|
      invariant SplitFrom(args, i, files) == SplitArgs(args)
    {
      if args[i] == ">" {
        return Split(files, Redirect(Truncate, if i + 1 < |args| then args[i + 1] else ""));
      } else if args[i] == ">>" {
        return Split(files, Redirect(Append, if i + 1 < |args| then args[i + 1] else ""));
      }
      files := files + [args[i]];
    }
    sp := Split(files, NoRedirect);
  }

  lemma {:induction false} SplitFromPrefix(args: seq<string>, i: nat, k: nat, files: seq<string>)
    requires i <= k < |args| && IsRedirect(args[k])
    requires forall j :: i <= j < k ==> !IsRedirect(args[j])
    ensures SplitFrom(args, i, files) ==
            Split(files + args[i..k], Redirect(if args[k] == ">" then Truncate else Append,
                                               if k + 1 < |args| then args[k + 1] else ""))
    decreases k - i
  {
    if i < k {
      SplitFromPrefix(args, i + 1, k, files + [args[i]]);
      assert files + [args[i]] + args[i + 1..k] == files + args[i..k];
    } else {
      assert args[i..k] == [];
      assert files + [] == files;
    }
  }

  lemma {:induction false} SplitFromNone(args: seq<string>, i: nat, files: seq<string>)
    requires i <= |args|
    requires forall j :: i <= j < |args| ==> !IsRedirect(args[j])
    ensures SplitFrom(args, i, files) == Split(files + args[i..], NoRedirect)
    decreases |args| - i
  {
    if i < |args| {
      SplitFromNone(args, i + 1, files + [args[i]]);
      assert files + [args[i]] + args[i + 1..] == files + args[i..];
    } else {
      assert files + args[i..] == files;
    }
  }

  /**
   * The split: the inputs are the arguments before the first `>` or `>>`,
   * the output is the token right after it, and whatever follows is
   * ignored; without a redirection every argument is an input.
   */
  lemma SplitAtFirstRedirect(args: seq<string>, k: nat)
    requires k < |args| && IsRedirect(args[k])
    requires forall j :: 0 <= j < k ==> !IsRedirect(args[j])
    ensures SplitArgs(args).files == args[..k]
    ensures SplitArgs(args).output ==
            Redirect(if args[k] == ">" then Truncate else Append, if k + 1 < |args| then args[k + 1] else "")
  {
    SplitFromPrefix(args, 0, k, []);
  }

  lemma SplitWithoutRedirect(args: seq<string>)
    requires forall j :: 0 <= j < |args| ==> !IsRedirect(args[j])
    ensures SplitArgs(args) == Split(args, NoRedirect)
  {
    SplitFromNone(args, 0, []);
    assert [] + args[0..] == args;
  }

  // ---------------------------------------------------------------------
  // Reading a file in chunks.
  // ---------------------------------------------------------------------

  const ChunkSize: nat := 2048

  function Min(a: int, b: int): int {
    if a < b then a else b
  }

  /**
   * `while ($cont = fread($fd, 2048))` as written: the loop stops at the
   * first chunk that is falsy, which is the empty chunk at end of file but
   * also a chunk that is exactly "0".
   */
  function ReadAsWritten(c: string): string
    decreases |c|
  {
    if c == [] then []
    else
      var chunk := c[..Min(ChunkSize, |c|)];
      if chunk == "0" then [] else chunk + ReadAsWritten(c[|chunk|..])
  }

  /**
   * The loop as written loses the last character of exactly those files
   * whose length is one more than a multiple of 2048 and whose last
   * character is '0'; it reads every other file whole.
   */
  lemma {:induction false} ReadAsWrittenLosesFinalZero(c: string)
    ensures ReadAsWritten(c) ==
            if |c| % ChunkSize == 1 && c[|c| - 1] == '0' then c[..|c| - 1] else c
    decreases |c|
  {
    if |c| > ChunkSize {
      ReadAsWrittenLosesFinalZero(c[ChunkSize..]);
      LongLosesFinalZero(c);
    } else if c != [] {
      ReadShort(c);
      if |c| % ChunkSize == 1 && c[|c| - 1] == '0' {
        assert c == "0";
      }
    }
  }

  /** The step of the proof above: a long file loses a final '0' exactly when what follows its first chunk does. */
  lemma LongLosesFinalZero(c: string)
    requires |c| > ChunkSize
    requires var rest := c[ChunkSize..];
             ReadAsWritten(rest) == if |rest| % ChunkSize == 1 && rest[|rest| - 1] == '0' then rest[..|rest| - 1] else rest
    ensures ReadAsWritten(c) == if |c| % ChunkSize == 1 && c[|c| - 1] == '0' then c[..|c| - 1] else c
  {
    ReadLong(c);
    LossCarries(c, ReadAsWritten(c), ReadAsWritten(c[ChunkSize..]));
  }

  /** The same step on plain strings: `read` is the first chunk followed by `readRest`. */
  lemma LossCarries(c: string, read: string, readRest: string)
    requires |c| > ChunkSize
    requires read == c[..ChunkSize] + readRest
    requires var rest := c[ChunkSize..];
             readRest == if |rest| % ChunkSize == 1 && rest[|rest| - 1] == '0' then rest[..|rest| - 1] else rest
    ensures read == if |c| % ChunkSize == 1 && c[|c| - 1] == '0' then c[..|c| - 1] else c
  {
    var chunk, rest := c[..ChunkSize], c[ChunkSize..];
    ChunkMod(|c|);
    if |c| % ChunkSize == 1 && c[|c| - 1] == '0' {
      assert rest[|rest| - 1] == '0';
      assert chunk + rest[..|rest| - 1] == c[..|c| - 1];
    } else {
      assert chunk + rest == c;
    }
  }

  lemma ChunkMod(n: int)
    requires n > ChunkSize
    ensures (n - ChunkSize) % ChunkSize == n % ChunkSize
  {
  }

  /** A file longer than one chunk: its first chunk, then the rest read the same way. */
  lemma ReadLong(c: string)
    requires |c| > ChunkSize
    ensures ReadAsWritten(c) == c[..ChunkSize] + ReadAsWritten(c[ChunkSize..])
  {
    assert |c[..ChunkSize]| != |"0"|;
  }

  /** A file of at most one chunk is read whole, unless it is "0". */
  lemma ReadShort(c: string)
    requires 0 < |c| <= ChunkSize
    ensures ReadAsWritten(c) == if c == "0" then [] else c
  {
    assert c[..|c|] == c;
  }

  /** A file holding just "0" reads as nothing. */
  lemma ZeroFileReadsEmpty()
    ensures ReadAsWritten("0") == ""
  {
    ReadAsWrittenLosesFinalZero("0");
  }

  /** The read loop of one input, stopping at the first falsy chunk. */
  method ReadChunks(c: string) returns (data: string)
    ensures data == ReadAsWritten(c)
  {
    data := [];
    var pos := 0;
    while true
      invariant 0 <= pos <= |c|
      invariant data + ReadAsWritten(c[pos..]) == ReadAsWritten(c)
      decreases |c| - pos
    {
      var cont := c[pos..Min(pos + ChunkSize, |c|)];
      if pos < |c| {
        ReadStep(c, pos);
      } else {
        assert c[pos..] == [];
      }
      if cont == "" || cont == "0" {
        assert data + [] == data;
        break;
      }
      AppendAssoc(data, cont, ReadAsWritten(c[pos + |cont|..]));
      data := data + cont;
      pos := pos + |cont|;
    }
  }

  /** One turn of the read loop: the next chunk ends the read when it is "0", else it is kept and the rest follows. */
  lemma ReadStep(c: string, pos: nat)
    requires pos < |c|
    ensures var cont := c[pos..Min(pos + ChunkSize, |c|)];
            |cont| > 0 &&
            ReadAsWritten(c[pos..]) == if cont == "0" then [] else cont + ReadAsWritten(c[pos + |cont|..])
  {
    var t, cont := c[pos..], c[pos..Min(pos + ChunkSize, |c|)];
    assert t[..Min(ChunkSize, |t|)] == cont;
    assert t[|cont|..] == c[pos + |cont|..];
  }

  // ---------------------------------------------------------------------
  // The command.
  // ---------------------------------------------------------------------

  /** What `cat` returns: null, the concatenated text, true after writing to a file, or false when the output does not open. */
  datatype Value = Null | Text(text: string) | True | False

  /** The inputs that open, each as the read loop yields it, one after the other. */
  function Concatenation(files: seq<string>, contents: map<string, string>): string {
    if files == [] then []
    else
      var last := files[|files| - 1];
      Concatenation(files[..|files| - 1], contents) + (if last in contents then ReadAsWritten(contents[last]) else [])
  }

  /** The inputs that open, read whole: what the concatenation is meant to be. */
  function Joined(files: seq<string>, contents: map<string, string>): string {
    if files == [] then []
    else
      var last := files[|files| - 1];
      Joined(files[..|files| - 1], contents) + (if last in contents then contents[last] else [])
  }

  /** A file that the final "0" chunk truncates. */
  predicate LosesFinalZero(c: string) {
    |c| % ChunkSize == 1 && c[|c| - 1] == '0'
  }

  /** The warnings for the inputs that do not open. */
  function Unopened(files: seq<string>, contents: map<string, string>): (w: seq<string>)
    ensures |w| <= |files|
  {
    if files == [] then []
    else
      var last := files[|files| - 1];
      Unopened(files[..|files| - 1], contents) + (if last in contents then [] else ["Could not open " + last])
  }

  /** `fopen($outputfile, $mode)` succeeds; a missing target (null) never opens. */
  predicate OutputOpens(target: string, writable: set<string>) {
    target != "" && target in writable
  }

  /** What the output file holds afterwards: `wb` truncates it, `ab+` appends to it. */
  function OutputAfter(r: Redirect, contents: map<string, string>, data: string): string
    requires r.Redirect?
  {
    if r.mode == Truncate then data
    else (if r.target in contents then contents[r.target] else []) + data
  }

  /** The input loop: concatenate the inputs that open and warn about the others. */
  method ReadInputs(files: seq<string>, contents: map<string, string>) returns (data: string, warnings: seq<string>)
    ensures data == Concatenation(files, contents)
    ensures warnings == Unopened(files, contents)
  {
    data, warnings := [], [];
    for i := 0 to |files|
      invariant data == Concatenation(files[..i], contents)
      invariant warnings == Unopened(files[..i], contents)
    {
      assert files[..i + 1][..i] == files[..i];
      var file := files[i];
      if file !in contents {
        warnings := warnings + ["Could not open " + file];
        continue;
      }
      var cont := ReadChunks(contents[file]);
      data := data + cont;
    }
    assert files[..|files|] == files;
  }

  /**
   * `cat($args)`: returns the value, the warnings, and the content of the
   * output file afterwards when there is one.
   */
  method CatFiles(args: Args, contents: map<string, string>, writable: set<string>)
    returns (ret: Value, warnings: seq<string>, output: string)
    ensures var sp := SplitArgs(ArgList(args));
            var data := Concatenation(sp.files, contents);
            (sp.output.Redirect? && !OutputOpens(sp.output.target, writable) ==>
               ret == False && warnings == ["Could not open " + sp.output.target] && output == []) &&
            (sp.output.Redirect? && OutputOpens(sp.output.target, writable) ==>
               ret == True && warnings == Unopened(sp.files, contents) &&
               output == OutputAfter(sp.output, contents, data)) &&
            (sp.output.NoRedirect? ==>
               ret == (if data == [] then Null else Text(data)) &&
               warnings == Unopened(sp.files, contents) && output == [])
  {
    var sp := SplitLoop(ArgList(args));
    output := [];
    if sp.output.Redirect? && !(sp.output.target != "" && sp.output.target in writable) {
      return False, ["Could not open " + sp.output.target], [];
    }
    var data;
    data, warnings := ReadInputs(sp.files, contents);
    if sp.output.Redirect? {
      ret := True;
      output := if sp.output.mode == Truncate then data
                else (if sp.output.target in contents then contents[sp.output.target] else []) + data;
    } else {
      ret := if data == [] then Null else Text(data);
    }
  }

  /**
   * The concatenation is the inputs that open, read whole, unless one of
   * them ends in a lone "0" chunk, and it has no other loss.
   */
  lemma {:induction false} ConcatenationIsJoined(files: seq<string>, contents: map<string, string>)
    requires forall i :: 0 <= i < |files| && files[i] in contents ==> !LosesFinalZero(contents[files[i]])
    ensures Concatenation(files, contents) == Joined(files, contents)
  {
    if files != [] {
      var last := files[|files| - 1];
      ConcatenationIsJoined(files[..|files| - 1], contents);
      if last in contents {
        ReadAsWrittenLosesFinalZero(contents[last]);
      }
    }
  }

  /** An input that does not open adds a warning and nothing else. */
  lemma {:induction false} UnopenedInputSkipped(a: seq<string>, f: string, b: seq<string>, contents: map<string, string>)
    requires f !in contents
    ensures Concatenation(a + [f] + b, contents) == Concatenation(a + b, contents)
    ensures Unopened(a + [f] + b, contents) == Unopened(a, contents) + ["Could not open " + f] + Unopened(b, contents)
  {
    ConcatenationAppend(a + [f], b, contents);
    ConcatenationAppend(a, b, contents);
    UnopenedAppend(a + [f], b, contents);
    assert (a + [f])[..|a + [f]| - 1] == a;
  }

  lemma {:induction false} UnopenedAppend(a: seq<string>, b: seq<string>, contents: map<string, string>)
    ensures Unopened(a + b, contents) == Unopened(a, contents) + Unopened(b, contents)
    decreases |b|
  {
    if b == [] {
      assert a + b == a;
    } else {
      assert (a + b)[..|a + b| - 1] == a + b[..|b| - 1];
      UnopenedAppend(a, b[..|b| - 1], contents);
    }
  }

  /** Concatenating two lists of inputs is concatenating their results. */
  lemma {:induction false} ConcatenationAppend(a: seq<string>, b: seq<string>, contents: map<string, string>)
    ensures Concatenation(a + b, contents) == Concatenation(a, contents) + Concatenation(b, contents)
    decreases |b|
  {
    if b == [] {
      assert a + b == a;
    } else {
      assert (a + b)[..|a + b| - 1] == a + b[..|b| - 1];
      ConcatenationAppend(a, b[..|b| - 1], contents);
    }
  }
}
