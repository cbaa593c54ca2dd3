# Fly_System file utilities, modelled in Dafny

This project models `Fly_System` (`System.php`), a PHP class that exposes
shell-like file commands as library calls. At its centre are:

- the directory walker `_dirToStruct`, which turns a directory into a list
  of directories and a list of everything else;
- the merger `_multipleToStruct`, which does the same for several arguments;
- `rm`, which deletes the merged listing files first, then directories in
  reverse byte order;
- `find`, which walks a start directory and filters the walk by `-type`,
  `-maxdepth` and any number of `-name` globs. It turns each glob into a
  PCRE fragment with `preg_quote` and `strtr`, and joins the fragments
  into one anchored alternation.

Around that core the model also covers:

- the argument handling, `-p` ancestor climb and non-`-p` guard of `mkDir`;
- the candidate search of `which`;
- the argument split and read loop of `cat`;
- `isError` and the result of `raiseError`.

The filesystem is a value wherever the PHP code would ask the system:

- a tree of `Dir`/`File`/`Link` nodes for the walker;
- a map from argument text to node for the commands;
- a flat map from path to kind, plus the paths the system refuses to delete,
  for `rm`;
- a map from path to "is a directory", plus the writable paths, for `mkDir`;
- a map from path to content, plus the openable output paths, for `cat`;
- an environment record, with the set of executable paths, for `which`.

Paths are strings with `/` as separator.

PHP strings are byte strings. In the model a `char` stands for one byte of
the PHP string, a character from U+0000 to U+00FF. A name in UTF-8 is
therefore given as its bytes, one `char` each. On such text `?` matches one
byte, as PCRE without `/u` does, and a chunk of `cat` holds 2048 bytes, as
`fread` reads them. The lemmas hold for every string, and so in particular
for byte strings.

Modules, one per part of the program:

- `FileTree`: the tree, paths, basename, and the pre-order of a tree
- `TreeWalker`: `_dirToStruct`
- `StructMerger`: `_multipleToStruct`
- `PathOrder`: the byte order and `rsort`
- `Remover`: `rm`
- `Glob`: the `-name` translation and the combined pattern
- `CommandLine`: the `preg_split('/\s+/')` of a command line
- `Finder`: `find`
- `PhpPath`: `dirname`/`basename`
- `MakeDir`: `mkDir`
- `Which`: `which`
- `Cat`: `cat`
- `Errors`: `isError`/`raiseError`

Each loop of the source is a method with loop invariants. Each method is
proved equal to a function of its inputs, and the lemmas state what the
source promises about those functions.

Behaviours of the code a reader may not expect:

- When the walk's start directory cannot be opened, `_dirToStruct` returns
  both lists empty. The root is not put in `dirs` in that case.
- `find` with no `-type` returns the files followed by the directories
  (`array_merge($path['files'], $path['dirs'])`).
- `_multipleToStruct` puts each directory's walk in front of what came
  before it. So `dirs` ends up in reverse argument order.
- The combined `-name` pattern anchors only its first alternative at the
  start and only its last at the end. With two or more patterns a name can
  match although no glob matches all of it.
- `-maxdepth` does not consume its value. That value is examined as an
  option again.

## Model

| member | source | states |
|---|---|---|
| FileTree.Basename | System.php:488 | the result has no separator and is the tail of the path after its last separator |
| FileTree.BasenameOfJoin | System.php:146 | the basename of a child path built by the walker is the entry's name |
| FileTree.PreorderDistinct | System.php:134-153 | in a tree whose entry names have no separator and are not `.`/`..`, no path is visited twice, and every visited path is the root or lies below it |
| TreeWalker.MergeRecursive | System.php:147-148 | defines `array_merge_recursive` on two listings: the `dirs` of both in turn, and the `files` of both in turn |
| TreeWalker.Walk | System.php:124-157 | a directory that does not open yields empty `dirs` and `files`; one that opens yields its own path as `dirs[0]` |
| TreeWalker.Listed | System.php:136-140 | the entries the `readdir` loop keeps are entries of the directory other than `.` and `..` |
| TreeWalker.ReadEntries | System.php:136-140 | the `readdir` loop collects exactly the entries `Listed` defines, in directory order |
| TreeWalker.WalkListed | System.php:136-153 | walking the kept entries is the same as walking all entries, since `.` and `..` are never descended into or listed |
| TreeWalker.DirToStruct | System.php:124-157 | the method returns exactly the listing `Walk` defines; its warnings are the paths it could not open, in order, and there are none when silent |
| TreeWalker.ChildLoop | System.php:145-153 | the child loop returns the merged walks of the directory's entries and the warnings of those walks |
| TreeWalker.Unopened | System.php:126-131 | defines the warnings of a walk: the path itself when it does not open, otherwise the warnings of the real subdirectories it descends into, in entry order |
| TreeWalker.ReadableNoWarnings | System.php:127-130 | a tree whose directories all open raises no warning |
| TreeWalker.WalkIsPreorder | System.php:134-153 | with no depth limit, on a tree that opens everywhere: `dirs` is every real directory in pre-order with the root first; `files` is every other node in the same pre-order |
| TreeWalker.DirsSound | System.php:134-149 | every listed directory is reached from the root through real directories, opens, and lies within the depth limit |
| TreeWalker.DirsComplete | System.php:134-149 | every directory reached within the depth limit that opens is listed |
| TreeWalker.FilesSound | System.php:146-151 | every listed file is a non-directory reached below the root within the depth limit |
| TreeWalker.FilesComplete | System.php:146-151 | every non-directory reached below the root within the depth limit is listed |
| TreeWalker.WalkMembers | System.php:134-153 | a path is in `dirs` if and only if it is a directory that opens, reached within the limit; it is in `files` if and only if it is a non-directory reached at depth at least 1 within the limit |
| TreeWalker.DepthLimit | System.php:144 | with limit `k > 0`, everything reached at depth at most `k` is listed, and nothing listed lies deeper than `k` |
| StructMerger.MergeStep | System.php:172-179 | defines one pass of the argument loop: a real directory puts its unbounded walk in front, any other argument is appended to `files` unless `files` already holds it |
| StructMerger.Merged | System.php:167-181 | defines the listing as the argument loop applied to every argument in order, starting from two empty lists |
| StructMerger.MergedWarnings | System.php:173-174 | defines the warnings as those of each directory argument's walk, which is not silent, in argument order |
| StructMerger.Fresh | System.php:176-178 | defines the other arguments that end up in `files`: each non-directory argument in order, unless it repeats an earlier one or is a file of an earlier directory argument's walk |
| StructMerger.FreshMembers | System.php:176-178 | the fresh arguments have no repeats and are all non-directory arguments, and every non-directory argument is fresh or a file of some walk |
| StructMerger.MergedFiles | System.php:171-180 | `dirs` is the walks' directories, last argument first; `files` is the walks' files in the same order followed by exactly the fresh arguments |
| StructMerger.ReadableArgsNoWarnings | System.php:173-174 | when every directory argument's tree opens everywhere, there are no warnings |
| StructMerger.MultipleToStruct | System.php:167-181 | the loop returns the listing `Merged` defines, and the warnings `MergedWarnings` defines |
| StructMerger.OtherArgs | System.php:172-178 | the non-directory arguments are exactly the arguments that are not real directories |
| StructMerger.MergedContents | System.php:171-180 | `dirs` is the walks of the directory arguments, last argument first, without deduplication; `files` starts with those walks' files and ends with exactly the fresh arguments (argument order, each non-directory argument left out when an earlier argument already put it in `files`), each at most once, and every non-directory argument is in `files` |
| PathOrder.StrLeqTotal | System.php:213 | any two paths are ordered one way or the other by byte order |
| PathOrder.StrLeqAntisymmetric | System.php:213 | two paths ordered both ways are equal |
| PathOrder.StrLeqTransitive | System.php:213 | byte order is transitive |
| PathOrder.PrefixSortsFirst | System.php:213 | a path sorts no later than any path that extends it |
| PathOrder.RSort | System.php:213 | `rsort` yields the same paths (a permutation), greatest first |
| PathOrder.DescendingPutsExtensionsFirst | System.php:213-214 | after `rsort`, a path that strictly extends another comes before it |
| PathOrder.RSortNoDup | System.php:213 | sorting keeps a list without repeats free of repeats |
| Remover.Apply | System.php:208-215 | `unlink` succeeds if and only if the path exists, is not refused and is not a directory; `rmdir` succeeds if and only if it is an unrefused directory with nothing left below it; a success removes exactly that path |
| Remover.Run | System.php:207-218 | a batch makes exactly one attempt per operation, in order; the disk only loses entries |
| Remover.Unlinks | System.php:207-208 | one `unlink` per listed file, in order |
| Remover.Rmdirs | System.php:214-215 | one `rmdir` per directory, in order |
| Remover.RecursivePlan | System.php:205-218 | defines what `rm -r` attempts: an `unlink` per listed file, then an `rmdir` per directory in `rsort` order |
| Remover.RecursivePlanOrder | System.php:205-218 | `rm -r` first unlinks every file, then removes directories; every listed directory is removed as often as it is listed, and each one only after every listed directory that extends its path |
| Remover.RunAppend | System.php:207-218 | running two batches in turn is running their concatenation |
| Remover.DirectOp | System.php:221-225 | defines the choice without `-r`: `rmdir` when `is_dir` holds on the disk as it is then, `unlink` otherwise |
| Remover.RunDirect | System.php:220-225 | without `-r`, there is one attempt per argument, for that argument |
| Remover.UnlinkPhase | System.php:207-211 | the unlink phase removes exactly the unrefused files, and each attempt succeeds if and only if its file is unrefused |
| Remover.RmdirPhase | System.php:213-218 | after the files are gone, each `rmdir` in sorted order succeeds if and only if that directory does not survive |
| Remover.RemoveListingLeaves | System.php:205-218 | on a disk holding exactly the listing, what remains after `rm -r` is exactly the refused entries and the directories above them |
| Remover.SuccessMeansNothingLocked | System.php:204-218 | if every attempt succeeds, nothing on the disk was refused |
| Remover.NothingLockedSucceeds | System.php:204-218 | if nothing is refused, every attempt succeeds |
| Remover.RemoveListing | System.php:204-218 | every attempt succeeds if and only if nothing is refused, and afterwards a path remains if and only if it survives |
| Remover.KindOf | System.php:221 | a node is a directory kind if and only if it is a real directory |
| Remover.Flat | System.php:205-206 | the flat view holds exactly the paths of the walk |
| Remover.FlatMatches | System.php:205-206 | a walk without repeated paths gives a disk that holds exactly its listing |
| Remover.RemoveTree | System.php:193-228 | `rm -r` of one readable directory tree: success if and only if nothing is refused; afterwards exactly the survivors remain, and the tree is gone entirely when nothing is refused |
| Remover.UnlinkAll | System.php:207-211 | the file loop performs `Run` of the unlinks, and `$ret` stays true if and only if every unlink succeeded |
| Remover.RmdirAll | System.php:213-218 | the directory loop performs `Run` of the rmdirs, and `$ret` stays true if and only if every rmdir succeeded |
| Remover.DeleteEach | System.php:219-226 | the non-recursive loop chooses `rmdir` or `unlink` by `is_dir`, once per argument, and `$ret` is true if and only if all succeeded |
| Remover.Rm | System.php:193-228 | an argument error returns false, touches nothing and warns with the error's message; `-r` runs the recursive plan of the merged listing and returns the walks' warnings; otherwise one deletion per argument and no warning; the result is true if and only if every attempt succeeded |
| Remover.AllSucceededAppend | System.php:204-218 | a flag cleared by any failure across two loops is true if and only if both loops succeeded |
| Glob.PregQuote | System.php:461 | defines `preg_quote($s, '#')` as the quoting of each character in turn |
| Glob.Strtr | System.php:464 | defines `strtr` with the keys `\?` and `\*`: a left-to-right scan that replaces each key it meets and goes on after it |
| Glob.Fragment | System.php:461-465 | defines the fragment of `-name g` as `strtr` of `preg_quote` of `g` |
| Glob.Parse | System.php:483 | defines how PCRE reads such a fragment: escapes and `\000` as literals, `.*` as any run, `.` as any one character |
| Glob.QuoteChar | System.php:461 | `preg_quote` writes NUL as `\000`, puts a backslash before every special character, and leaves every other character as it is |
| Glob.QuoteIsLiteral | System.php:461 | PCRE reads the output of `preg_quote` as the quoted text, character for character |
| Glob.QuotedHead | System.php:461 | a quoted string never starts with a bare `?` or `*` |
| Glob.StrtrQuoted | System.php:464 | `strtr` rewrites a quoted string one quoted character at a time |
| Glob.FragmentPerChar | System.php:461-464 | the fragment of a glob is the concatenation of the fragments of its characters |
| Glob.PerChar | System.php:461-465 | the intended reading of a glob has one token per character |
| Glob.TranslateIsPerChar | System.php:461-465 | PCRE reads the fragment as one token per glob character: `?` is any one character, `*` any run, and every other character (metacharacters, `#` and NUL included) is itself |
| Glob.PerCharMeansGlob | System.php:461-465 | on text without newlines, the tokens match exactly what the glob means in the shell |
| Glob.FragmentMeansGlob | System.php:461-465 | on text without newlines, the fragment of `g` matches exactly the texts glob `g` matches |
| Glob.ImplodeShape | System.php:483 | `implode('|')` makes one unanchored alternative per pattern |
| Glob.CombineAnchors | System.php:483 | in the combined pattern only the first alternative is anchored at the start and only the last at the end |
| Glob.SinglePattern | System.php:483-489 | with one `-name g`, a name matches if and only if all of it matches glob `g` |
| Glob.MultiplePatterns | System.php:483-489 | with two or more patterns, a name matches if and only if the first matches a prefix of it, a middle one matches anywhere in it, or the last matches a suffix of it |
| Glob.TwoNamesMatchPrefix | System.php:483-489 | `-name a -name b` matches `apple`, which neither glob matches |
| Glob.SharedLiteral | System.php:428 | in a bash-style pattern, a prefix without `?` or `*` matches only that same prefix of the name |
| Glob.GlobExamples | System.php:428 | `*.txt` matches `a.txt` and `b.c.txt` but not `a.txt2`; `file?.log` matches `file1.log` but not `file12.log` |
| Glob.StarMatchesSimple | System.php:461-489 | the pattern for `*.txt` matches `a.txt` |
| Glob.StarRejectsLonger | System.php:461-489 | the pattern for `*.txt` does not match `a.txt2` |
| Glob.QuestionMatchesOne | System.php:461-489 | the pattern for `file?.log` matches `file1.log` |
| Glob.QuestionRejectsTwo | System.php:461-489 | the pattern for `file?.log` does not match `file12.log` |
| CommandLine.WordAt | System.php:438 | the first word is a whitespace-free prefix that stops at whitespace or the end |
| CommandLine.Words | System.php:438 | the split yields only non-empty whitespace-free words |
| CommandLine.WordsUnwords | System.php:437-439 | splitting words joined by single spaces gives back those words |
| CommandLine.ArgList | System.php:437-439 | an argument array is used as it is; a string is split into its words |
| Finder.ScanFrom | System.php:448-472 | defines the option loop from index `i`: `-type` and `-name` use and skip the next token, `-maxdepth` uses it without skipping, anything else is ignored |
| Finder.DepthValue | System.php:468-470 | defines the number a `-maxdepth` value stands for in the walker's comparisons: an optionally signed digit string as its integer, anything else (null included) as 0 |
| Finder.ScanShift | System.php:448-472 | the scan of the arguments from a position on does not depend on the arguments before it |
| Finder.NameTakesItsValue | System.php:460-467 | `-name t` adds the fragment of `t`, whatever `t` is, and the scan goes on after `t` |
| Finder.ScanOptions | System.php:444-472 | the option loop returns the options `ScanFrom` defines |
| Finder.ScanIgnoresOthers | System.php:448-472 | tokens that are not options change nothing |
| Finder.TypeSkipsItsValue | System.php:450-459 | for any token `t` and any rest: `-type t` sets the flag `t` names (`d` or `f`), or none, and the scan goes on after `t`, so a `t` that is an option is never read as one |
| Finder.MaxdepthKeepsItsValue | System.php:468-470 | for any tokens after `-maxdepth`: the depth is the value of the next token (0 when there is none), and that token is then scanned again as an option |
| Finder.TrailingName | System.php:460-467 | a `-name` that is the last argument adds the empty pattern to whatever was gathered before it |
| Finder.BothTypes | System.php:450-480 | `-type d -type f` clears both flags, so only files are returned |
| Finder.Candidates | System.php:474-480 | defines the candidates: files then directories when both flags are set, the directories when only files are switched off, otherwise the files |
| Finder.KeepMembers | System.php:484-492 | a path is kept if and only if it is a candidate whose basename the pattern matches |
| Finder.KeepIsSubsequence | System.php:486-492 | the filter picks its results out of the candidates at increasing positions, so order is preserved |
| Finder.KeepCounts | System.php:486-492 | each matching candidate is kept as often as it is listed, and nothing else is kept |
| Finder.KeepMatching | System.php:484-493 | the filter loop returns `Keep` of the candidates |
| Finder.FindResult | System.php:435-496 | defines `find` as a whole: nothing when the start does not resolve; otherwise the candidates of the silent walk, filtered by the combined pattern when there is a `-name` |
| Finder.Find | System.php:435-496 | the method returns `FindResult`: the silent walk of the resolved start directory, selected by `-type` and filtered by the combined pattern |
| Finder.FindCases | System.php:440-495 | `[]` when `realpath` fails; the unfiltered candidates without `-name`; otherwise the candidates whose basename matches, in order and with their multiplicity |
| Finder.KeepOneName | System.php:460-491 | with one `-name g`, a path without newlines is found if and only if it is a candidate whose basename matches glob `g` |
| PhpPath.StripSeps | System.php:264 | the result is a prefix of the path that does not end in a separator |
| PhpPath.StripSepsDropsSeps | System.php:264 | what is dropped is separators only |
| PhpPath.StripName | System.php:264 | the result is a prefix of the path that is empty or ends in a separator |
| PhpPath.StripNameDropsName | System.php:264 | what is dropped holds no separator |
| PhpPath.PhpBasename | System.php:371-373 | `basename` has no separator |
| PhpPath.DirnameOfJoin | System.php:371-373 | `dirname` and `basename` split `d/name` back into `d` and `name` |
| PhpPath.DirnameFixpoints | System.php:264 | `""`, `/` and `.` are their own dirname |
| PhpPath.DirnameClimbs | System.php:261-265 | any other path is strictly higher than its dirname, so climbing by `dirname` ends |
| MakeDir.Made | System.php:273 | a created directory exists and is writable; no other path changes |
| MakeDir.ParseFrom | System.php:243-255 | defines the argument loop from index `i`: `-p` sets the flag, `-m` skips the next token, anything else names a directory |
| MakeDir.ParseShift | System.php:243-255 | the parse from a position on does not depend on the arguments before it |
| MakeDir.ParseArgs | System.php:243-255 | the argument loop returns what `Parse` defines |
| MakeDir.ParsePlain | System.php:243-255 | without options, every argument names a directory, in order |
| MakeDir.ModeTakesNextToken | System.php:248-250 | for any token `t` and any rest, `-m t` skips `t` even when it is `-p`; a trailing `-m` skips nothing |
| MakeDir.ParseStep | System.php:244-253 | for any rest, `-p` sets the flag wherever it stands, and any other token but `-m` is appended to the directories |
| MakeDir.AncestorsAsWritten | System.php:259-265 | defines the climbing loop as written, run for a given number of steps: the stack it builds if it stops, or `Running` |
| MakeDir.Ancestors | System.php:259-265 | defines the corrected climb: the missing ancestors, shallowest first, climbing by `dirname` until an existing directory, `/`, or a path that is its own dirname |
| MakeDir.FixpointNeverStops | System.php:261-265 | as written, the climb never stops at a missing path that is its own dirname |
| MakeDir.EmptyNameNeverStops | System.php:261-265 | as written, `mkDir -p ""` climbs for ever |
| MakeDir.AncestorsAgree | System.php:261-265 | wherever the climb as written stops, the corrected climb builds the same stack |
| MakeDir.AncestorsChain | System.php:259-265 | the stack ends with the name; each entry is the dirname of the next; none is an existing directory; the climb stopped at the parent of the first entry |
| MakeDir.AncestorStack | System.php:260-265 | the climbing loop returns `Ancestors`, shallowest first |
| MakeDir.Shift | System.php:267-276 | defines the `array_shift` loop: stop at the end or at a falsy entry; a parent that is not writable stops with failure; a failed `mkdir` clears the result and goes on |
| MakeDir.ShiftCreates | System.php:267-276 | existing directories stay; a successful pass over a stack without falsy entries leaves every entry a directory |
| MakeDir.MadeWithParents | System.php:259-276 | with `-p`, a successful name whose stack has no falsy entry exists as a directory afterwards, unless it is `/` or its own dirname |
| MakeDir.ZeroAncestorStops | System.php:267 | a stack that starts with `"0"` creates nothing and reports success |
| MakeDir.ZeroAncestorExample | System.php:259-276 | `mkDir -p 0/a` with only `.` present creates nothing and returns true |
| MakeDir.MakeEach | System.php:278-283 | defines the loop without `-p`: `mkdir` for each name in turn on the filesystem left by the previous ones, with the result cleared by any failure |
| MakeDir.MakeEachFresh | System.php:279-283 | without `-p`, distinct new names under writable directories are all created and the call succeeds |
| MakeDir.ShiftLoop | System.php:267-276 | the `array_shift` loop over a stack ends with the filesystem and result `Shift` defines |
| MakeDir.ParentsLoop | System.php:258-277 | with `-p`, the loop over the names ends with the filesystem and result `MakeParents` defines |
| MakeDir.EachLoop | System.php:278-283 | without `-p`, the loop over the names ends with the filesystem and result `MakeEach` defines |
| MakeDir.MkDir | System.php:239-287 | the command's result and filesystem are `MakeParents` with `-p` and `MakeEach` without it; without `-p`, `mkdir` is tried for every name, since the guard always holds |
| Which.SearchPath | System.php:376-381 | defines the search path: the safe-mode directory when safe mode gives one, otherwise `PATH`, otherwise `Path` |
| Which.Suffixes | System.php:385-398 | defines the suffixes: off Windows the empty one; on Windows `PATHEXT` split or the four defaults, with the empty suffix first for a dotted name |
| Which.Candidates | System.php:400-402 | defines the candidates as each suffix in turn, then each search directory in turn, as `dir . sep . name . suffix` |
| Which.Explode | System.php:382-387 | `explode` yields at least one piece, and no piece contains the separator |
| Which.ImplodeExplode | System.php:382-387 | joining the pieces with the separator gives the string back |
| Which.Row | System.php:401-402 | one candidate per search directory, for one suffix |
| Which.CandidatesLength | System.php:400-407 | there is one candidate per suffix and directory |
| Which.CandidateAt | System.php:400-402 | the candidate for suffix `i` and directory `j` is tried at position `i * |dirs| + j`: suffix-major, then path order |
| Which.FirstIn | System.php:400-408 | the index found holds an executable candidate and every earlier one is not; -1 means none is executable |
| Which.Search | System.php:400-408 | the nested loops return the first executable candidate, or the fallback |
| Which.WhichProgram | System.php:363-409 | `which` returns `WhichResult`: the fallback for an empty name, otherwise the first executable candidate or the fallback |
| Which.WhichFindsFirst | System.php:363-409 | `which` returns the fallback if and only if the name is empty or no candidate is executable; otherwise it returns an executable candidate, and every candidate tried before it is not executable |
| Which.JoinedNameSearchesItsDirectory | System.php:371-373 | a name `d/name` is looked for only in `d`, under `name` |
| Which.UnixCandidates | System.php:395-402 | off Windows, the candidates are the search directories in order, each joined with the name |
| Which.WindowsDottedNameFirst | System.php:385-392 | on Windows, a name containing a dot is first tried as given, in the first directory |
| Which.FirstInIs | System.php:403-404 | an executable candidate with no executable one before it is the one returned |
| Which.FirstInNone | System.php:408 | when no candidate is executable, none is returned |
| Cat.SplitFrom | System.php:313-325 | defines the argument loop from index `i`: `>` or `>>` ends it with the mode and the next token as output; anything else is an input |
| Cat.SplitLoop | System.php:312-325 | the argument loop returns the split `SplitArgs` defines |
| Cat.SplitAtFirstRedirect | System.php:313-325 | the inputs are the arguments before the first `>` or `>>`; the output is the token after it (`""` when missing); the rest is ignored |
| Cat.SplitWithoutRedirect | System.php:313-325 | without `>` or `>>`, every argument is an input and there is no output file |
| Cat.ReadAsWritten | System.php:339-345 | defines the `fread` loop: 2048-character chunks in turn, stopping at the end or at the first chunk that is `"0"` |
| Cat.ReadAsWrittenLosesFinalZero | System.php:339 | the read loop loses the last character of exactly those files whose length is 1 more than a multiple of 2048 and whose last character is `0`; every other file is read whole |
| Cat.ZeroFileReadsEmpty | System.php:339 | a file holding just `0` reads as nothing |
| Cat.ReadChunks | System.php:339-345 | the read loop yields what `ReadAsWritten` defines |
| Cat.Unopened | System.php:335-337 | there is at most one warning per input |
| Cat.ReadInputs | System.php:334-345 | the input loop concatenates the inputs that open and warns about the others, in order |
| Cat.CatFiles | System.php:304-349 | when the output file does not open: false with its warning and nothing written; when it opens: true, and the output holds the concatenation (truncating for `>`, appending for `>>`); without output: null when nothing is read, otherwise the concatenated text |
| Cat.ConcatenationIsJoined | System.php:334-345 | when no input ends in a lone `0` chunk, the concatenation is every input that opens, read whole |
| Cat.UnopenedInputSkipped | System.php:335-337 | an input that does not open adds one warning and no text |
| Cat.UnopenedAppend | System.php:334-338 | the warnings of two input lists are the warnings of each, in turn |
| Cat.ConcatenationAppend | System.php:334-345 | the concatenation of two input lists is the concatenation of each, in turn |
| Errors.IsError | System.php:84-97 | only a PEAR error qualifies; a string code must equal its message and an integer code its code |
| Errors.QualifiedIsError | System.php:84-97 | a value that passes a message or code test is a PEAR error |
| Errors.ErrorMatchesItself | System.php:84-97 | an error passes the test for its own message and its own code, and for no other |
| Errors.RaiseError | System.php:64-71 | `raiseError` returns false and warns with the error's message, or with the string it is given |

## Left out

- `natsort`: the walker takes a directory's entries to be in natural order already.
- PHP's loose comparisons with numeric strings are not modelled where they differ from strict ones. These are:
  - `rsort` compares two numeric-string paths numerically; the model uses byte order.
  - A `-maxdepth` value with spaces, a decimal point or an exponent compares as a number; the model reads it as the integer its sign and digits form, and anything else as 0.
  - `getMessage() == $code` compares two numeric strings numerically; the model compares them exactly.
  - StructMerger.MergeStep / StructMerger.Fresh: the deduplication compares exactly, where PHP's non-strict `in_array` treats numeric strings such as "1", "1.0" and "01" as equal, so `rm -r 1.0 1` on two files lists `1.0` only and never unlinks `1`.
- Errors.IsError: only integer and string codes are modelled, not other `$code` types; `PEAR_Error` itself is not part of this model.
- Errors.RaiseError: the warning text for a value that is neither an error nor a string is not modelled.
- Warnings (`trigger_error`) are returned as lists of messages or paths instead of being emitted.
- `_parseArgs` is not part of this model. `rm` takes its result (an error, or options and operands) as input.
- `realpath`: paths are taken as canonical. `find` takes `realpath` as a map from argument text to result.
- TreeWalker.Walk / Finder.FindResult: a walk from `/` keeps the paths `//name` and `//name/…` that joining builds, where the source lists `realpath` of each directory, `/name`, and builds that directory's children from it (`/name/…`); only the files directly under `/` agree (`//name` in both).
- Windows: separators stay `/` in every path. `\` is used only where `which` builds a candidate. `basename` and `dirname` do not treat `\` as a separator.
- The `mkdir` mode. A created directory is taken to be writable.
- Path normalisation: `a/b/` and `a/b` are different keys of the filesystem maps.
- `mkDir` called with a string instead of an array of arguments.
- `which` with a non-string program; "is_file instead of is_executable" is folded into the executable set.
- Streams and URLs in `cat`. Every read of a file returns a full 2048-byte chunk until the last one.
- Cat.CatFiles: each input is read as it was before the call. When the output file is also an input, the source reads the truncated or growing file instead.
- PCRE beyond the fragments `find` builds, and the `#` delimiter's parsing of the whole pattern.
- Text above U+00FF: Dafny's `char` is a Unicode scalar, but only the byte range stands for PHP text; a string with a larger `char` has no PHP counterpart.
- Remover.RemoveListing: the disk is taken to hold exactly the listed paths, so the survivor theorem (and Remover.RemoveTree, which builds on it) says nothing about a disk that also holds paths outside the trees being removed.
- Concurrency, and changes to the filesystem made by anyone else during a call.
- Symbolic links are never followed by `rm -r`, as in the source. `is_dir` follows them in `rm`'s non-recursive mode and in `mkDir`.

## Findings

| source | as written | input that shows it | evidently intended | confidence | as-written member | corrected member |
|---|---|---|---|---|---|---|
| System.php:261-265 | the `-p` climb stops only at an existing directory or at `/`, but `dirname("")` is `""` (and `dirname(".")` is `"."`) | `mkDir(['-p', ''])`, or a `-p` name whose climb reaches a `.` that does not exist as a directory: the climb does not end until PHP's memory or time limit stops the script | stop the climb at a path that is its own dirname | medium, not executed | MakeDir.AncestorsAsWritten, shown by MakeDir.EmptyNameNeverStops | MakeDir.Ancestors, with MakeDir.AncestorStack and MakeDir.AncestorsAgree (used by MakeDir.MkDir) |
