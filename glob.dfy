/**
 * The `-name` patterns of `find`: how a shell-style glob is turned into a
 * PCRE fragment (`preg_quote` with '#' as delimiter, then `strtr` turning the
 * escaped `\?` and `\*` back into `.` and `.*`), what that fragment matches,
 * and the combined pattern `#(^|/)(p1)|(p2)|...|(pn)($|/)#`.
 *
 * Only the part of PCRE that this construction can produce is modelled:
 * literal characters, `.` (any character but a newline), `.*`, the two
 * anchors and the top-level alternation.
 */
module Glob {
  import opened FileTree

  // ---------------------------------------------------------------------
  // From glob to PCRE fragment.
  // ---------------------------------------------------------------------

  /** The characters `preg_quote($s, '#')` puts a backslash before (the delimiter '#' included). */
  predicate Special(c: char) {
    c in {'.', '\\', '+', '*', '?', '[', '^', ']', '$', '(', ')', '{', '}', '=', '!', '<', '>', '|', ':', '-', '#'}
  }

  /** How `preg_quote` writes one character: NUL as `\000`, a special character escaped, the rest as is. */
  function QuoteChar(c: char): (q: string)
    ensures c == '\0' ==> q == "\\000"
    ensures Special(c) ==> q == ['\\', c]
    ensures c != '\0' && !Special(c) ==> q == [c]
  {
    if c == '\0' then "\\000"
    else if Special(c) then ['\\', c]
    else [c]
  }

  function PregQuote(s: string): string {
    if s == [] then [] else QuoteChar(s[0]) + PregQuote(s[1..])
  }

  /**
   * `strtr($s, array('\?' => '.', '\*' => '.*'))`: scanning left to right,
   * each occurrence of one of the two keys is replaced and the scan goes on
   * after it.
   */
  function Strtr(s: string): string {
    if |s| >= 2 && s[0] == '\\' && s[1] == '?' then "." + Strtr(s[2..])
    else if |s| >= 2 && s[0] == '\\' && s[1] == '*' then ".*" + Strtr(s[2..])
    else if s == [] then []
    else [s[0]] + Strtr(s[1..])
  }

  /** The fragment `-name g` contributes, without its surrounding parentheses. */
  function Fragment(g: string): string {
    Strtr(PregQuote(g))
  }

  datatype Token = Lit(c: char) | Any | Star

  /** How PCRE reads a fragment built as above: escapes, `\000`, `.`, `.*` and plain characters. */
  function Parse(r: string): seq<Token> {
    if r == [] then []
    else if r[0] == '\\' && |r| >= 4 && r[1..4] == "000" then [Lit('\0')] + Parse(r[4..])
    else if r[0] == '\\' && |r| >= 2 then [Lit(r[1])] + Parse(r[2..])
    else if r[0] == '.' && |r| >= 2 && r[1] == '*' then [Star] + Parse(r[2..])
    else if r[0] == '.' then [Any] + Parse(r[1..])
    else [Lit(r[0])] + Parse(r[1..])
  }

  /** The tokens that match the text `s` literally. */
  function Literal(s: string): seq<Token> {
    seq(|s|, i requires 0 <= i < |s| => Lit(s[i]))
  }

  lemma QuoteCharParse(c: char, x: string)
    ensures Parse(QuoteChar(c) + x) == [Lit(c)] + Parse(x)
  {
    if c == '\0' {
      var r := "\\000" + x;
      assert r[1..4] == "000" && r[4..] == x;
    } else if Special(c) {
      var r := ['\\', c] + x;
      assert r[1] == c && r[2..] == x;
    } else {
      assert ([c] + x)[1..] == x;
    }
  }

  /** `preg_quote` does its job: PCRE reads the quoted text as that text, character for character. */
  lemma {:induction false} QuoteIsLiteral(s: string)
    ensures Parse(PregQuote(s)) == Literal(s)
  {
    if s != [] {
      QuoteIsLiteral(s[1..]);
      QuoteCharParse(s[0], PregQuote(s[1..]));
      assert Literal(s) == [Lit(s[0])] + Literal(s[1..]);
    }
  }

  /** The tokens a glob character is meant to become. */
  function TokenOf(c: char): Token {
    if c == '?' then Any else if c == '*' then Star else Lit(c)
  }

  function PerChar(g: string): (ts: seq<Token>)
    ensures |ts| == |g| && forall i :: 0 <= i < |g| ==> ts[i] == TokenOf(g[i])
  {
    if g == [] then [] else [TokenOf(g[0])] + PerChar(g[1..])
  }

  /** What `strtr` makes of one quoted character. */
  function FragChar(c: char): string {
    if c == '?' then "." else if c == '*' then ".*" else QuoteChar(c)
  }

  /** A quoted string never starts with a bare `?` or `*` (both are always escaped). */
  lemma QuotedHead(s: string)
    ensures PregQuote(s) == [] || (PregQuote(s)[0] != '?' && PregQuote(s)[0] != '*')
  {
  }

  lemma {:induction false} StrtrQuoted(c: char, rest: string)
    ensures Strtr(QuoteChar(c) + PregQuote(rest)) == FragChar(c) + Strtr(PregQuote(rest))
  {
    var x := PregQuote(rest);
    QuotedHead(rest);
    if c == '\0' {
      StrtrNul(x);
    } else if c == '?' || c == '*' {
      StrtrWild(c, x);
    } else if Special(c) {
      StrtrEscaped(c, x);
    } else {
      StrtrCons(c, x);
    }
  }

  lemma StrtrNul(x: string)
    ensures Strtr("\\000" + x) == "\\000" + Strtr(x)
  {
    StrtrCons('0', x);
    StrtrCons('0', ['0'] + x);
    StrtrCons('0', ['0'] + (['0'] + x));
    StrtrCons('\\', ['0'] + (['0'] + (['0'] + x)));
    Nest4('\\', '0', '0', '0', x);
    Nest4('\\', '0', '0', '0', Strtr(x));
  }

  lemma StrtrWild(c: char, x: string)
    requires c == '?' || c == '*'
    ensures Strtr(['\\', c] + x) == FragChar(c) + Strtr(x)
  {
    assert (['\\', c] + x)[2..] == x;
  }

  lemma StrtrEscaped(c: char, x: string)
    requires c != '?' && c != '*'
    requires c != '\\' || x == [] || (x[0] != '?' && x[0] != '*')
    ensures Strtr(['\\', c] + x) == ['\\', c] + Strtr(x)
  {
    StrtrCons(c, x);
    StrtrCons('\\', [c] + x);
    Nest2('\\', c, x);
    Nest2('\\', c, Strtr(x));
  }

  lemma Nest2(a: char, b: char, x: string)
    ensures [a, b] + x == [a] + ([b] + x)
  {
  }

  lemma Nest4(a: char, b: char, c: char, d: char, x: string)
    ensures [a, b, c, d] + x == [a] + ([b] + ([c] + ([d] + x)))
  {
  }

  /** `strtr` copies a character that does not start one of its two keys. */
  lemma StrtrCons(c: char, x: string)
    requires c != '\\' || x == [] || (x[0] != '?' && x[0] != '*')
    ensures Strtr([c] + x) == [c] + Strtr(x)
  {
    assert ([c] + x)[1..] == x;
  }

  /** The fragment of a glob is the concatenation of the fragments of its characters. */
  function FragChars(g: string): string {
    if g == [] then [] else FragChar(g[0]) + FragChars(g[1..])
  }

  lemma {:induction false} FragmentPerChar(g: string)
    ensures Fragment(g) == FragChars(g)
  {
    if g != [] {
      assert PregQuote(g) == QuoteChar(g[0]) + PregQuote(g[1..]);
      StrtrQuoted(g[0], g[1..]);
      FragmentPerChar(g[1..]);
    }
  }

  /** A fragment never starts with `*`: a literal star is always escaped. */
  lemma FragHead(g: string)
    ensures FragChars(g) == [] || FragChars(g)[0] != '*'
  {
  }

  lemma {:induction false} ParseFragChar(c: char, rest: string)
    ensures Parse(FragChar(c) + FragChars(rest)) == [TokenOf(c)] + Parse(FragChars(rest))
  {
    var y := FragChars(rest);
    var f := FragChar(c);
    FragHead(rest);
    if c == '?' {
      assert (f + y)[1..] == y;
    } else if c == '*' {
      assert (f + y)[2..] == y;
    } else if c == '\0' {
      assert (f + y)[1..4] == "000" && (f + y)[4..] == y;
    } else if Special(c) {
      assert (f + y)[1] == c && (f + y)[2..] == y;
      assert c != '0';
    } else {
      assert (f + y)[1..] == y;
    }
  }

  /**
   * The translation is faithful: PCRE reads the fragment of `g` as `?`
   * meaning one character, `*` meaning any run and every other character
   * (the regex metacharacters, the delimiter and NUL included) meaning
   * itself.
   */
  lemma {:induction false} TranslateIsPerChar(g: string)
    ensures Parse(Fragment(g)) == PerChar(g)
  {
    FragmentPerChar(g);
    TokensOfFragChars(g);
  }

  lemma {:induction false} TokensOfFragChars(g: string)
    ensures Parse(FragChars(g)) == PerChar(g)
  {
    if g != [] {
      ParseFragChar(g[0], g[1..]);
      TokensOfFragChars(g[1..]);
    }
  }

  // ---------------------------------------------------------------------
  // What a fragment matches.
  // ---------------------------------------------------------------------

  /** The tokens match all of `t`; `.` and `.*` never match a newline, as in PCRE without the `s` flag. */
  predicate MatchAll(ts: seq<Token>, t: string)
    decreases |t|, |ts|
  {
    if ts == [] then t == []
    else match ts[0]
      case Lit(c) => t != [] && t[0] == c && MatchAll(ts[1..], t[1..])
      case Any => t != [] && t[0] != '\n' && MatchAll(ts[1..], t[1..])
      case Star => MatchAll(ts[1..], t) || (t != [] && t[0] != '\n' && MatchAll(ts, t[1..]))
  }

  /** The shell meaning of a glob, as the `-name` option documents it: `?` one character, `*` any run. */
  predicate GlobMatch(g: string, t: string)
    decreases |t|, |g|
  {
    if g == [] then t == []
    else if g[0] == '*' then GlobMatch(g[1..], t) || (t != [] && GlobMatch(g, t[1..]))
    else if g[0] == '?' then t != [] && GlobMatch(g[1..], t[1..])
    else t != [] && t[0] == g[0] && GlobMatch(g[1..], t[1..])
  }

  predicate NoNewline(t: string) {
    forall i :: 0 <= i < |t| ==> t[i] != '\n'
  }

  /** On text without newlines, the tokens of a glob match exactly what the glob means. */
  lemma {:induction false} PerCharMeansGlob(g: string, t: string)
    requires NoNewline(t)
    ensures MatchAll(PerChar(g), t) <==> GlobMatch(g, t)
    decreases |t|, |g|
  {
    if g != [] {
      var ts := PerChar(g);
      assert ts[1..] == PerChar(g[1..]);
      if t != [] {
        assert NoNewline(t[1..]);
        PerCharMeansGlob(g[1..], t[1..]);
        if g[0] == '*' {
          PerCharMeansGlob(g, t[1..]);
        }
      }
      if g[0] == '*' {
        PerCharMeansGlob(g[1..], t);
      }
    }
  }

  /** `-name g` means glob `g` on any text without newlines. */
  lemma FragmentMeansGlob(g: string, t: string)
    requires NoNewline(t)
    ensures MatchAll(Parse(Fragment(g)), t) <==> GlobMatch(g, t)
  {
    TranslateIsPerChar(g);
    PerCharMeansGlob(g, t);
  }

  // ---------------------------------------------------------------------
  // The combined pattern.
  // ---------------------------------------------------------------------

  /**
   * One branch of the top-level alternation: its tokens, and whether the
   * leading `(^|/)` or the trailing `($|/)` belongs to it.
   */
  datatype Branch = Branch(startAnchored: bool, body: seq<Token>, endAnchored: bool)

  /** `implode('|', $patterns)`: one unanchored branch per pattern. */
  function Implode(ps: seq<seq<Token>>): seq<Branch> {
    if ps == [] then [] else Implode(ps[..|ps| - 1]) + [Branch(false, ps[|ps| - 1], false)]
  }

  /**
   * `'(^|/)' . implode('|', $patterns) . '($|/)'`: alternation binds
   * loosest, so the leading group joins the first branch and the trailing
   * group the last.
   */
  function Combine(ps: seq<seq<Token>>): seq<Branch> {
    var bs := Implode(ps);
    if bs == [] then []
    else
      var first := bs[0].(startAnchored := true);
      var withStart := [first] + bs[1..];
      withStart[|bs| - 1 := withStart[|bs| - 1].(endAnchored := true)]
  }

  lemma {:induction false} ImplodeShape(ps: seq<seq<Token>>)
    ensures |Implode(ps)| == |ps|
    ensures forall i :: 0 <= i < |ps| ==> Implode(ps)[i] == Branch(false, ps[i], false)
  {
    if ps != [] {
      ImplodeShape(ps[..|ps| - 1]);
    }
  }

  /** Only the first pattern is start-anchored, only the last end-anchored, each keeps its tokens. */
  lemma CombineAnchors(ps: seq<seq<Token>>)
    ensures |Combine(ps)| == |ps|
    ensures forall i :: 0 <= i < |ps| ==>
              Combine(ps)[i] == Branch(i == 0, ps[i], i == |ps| - 1)
  {
    ImplodeShape(ps);
  }

  /** `(^|/)` before position `a`. */
  predicate StartOk(b: Branch, s: string, a: int)
    requires 0 <= a <= |s|
  {
    !b.startAnchored || a == 0 || s[a - 1] == Sep
  }

  /** `($|/)` at position `e`: `$` also matches before a final newline. */
  predicate EndOk(b: Branch, s: string, e: int)
    requires 0 <= e <= |s|
  {
    !b.endAnchored || e == |s| || (e == |s| - 1 && s[e] == '\n') || (e < |s| && s[e] == Sep)
  }

  /** `preg_match` of the combined pattern: some branch matches some part of `s`. */
  predicate RegexMatch(rx: seq<Branch>, s: string) {
    exists i, a, e :: 0 <= i < |rx| && 0 <= a <= e <= |s| &&
      StartOk(rx[i], s, a) && MatchAll(rx[i].body, s[a..e]) && EndOk(rx[i], s, e)
  }

  /** A name without separators or newlines: what `basename` gives for a path found by the walker. */
  predicate PlainName(s: string) {
    NoSep(s) && NoNewline(s)
  }

  /** With a single `-name g`, the pattern matches a plain name exactly when the whole name matches `g`. */
  lemma SinglePattern(g: string, s: string)
    requires PlainName(s)
    ensures RegexMatch(Combine([Parse(Fragment(g))]), s) <==> GlobMatch(g, s)
  {
    var rx := Combine([Parse(Fragment(g))]);
    CombineAnchors([Parse(Fragment(g))]);
    FragmentMeansGlob(g, s);
    assert s[0..|s|] == s;
    if RegexMatch(rx, s) {
      var i, a, e :| 0 <= i < |rx| && 0 <= a <= e <= |s| &&
        StartOk(rx[i], s, a) && MatchAll(rx[i].body, s[a..e]) && EndOk(rx[i], s, e);
      assert a == 0 && e == |s|;
    }
    if GlobMatch(g, s) {
      assert StartOk(rx[0], s, 0) && EndOk(rx[0], s, |s|);
    }
  }

  predicate MatchesPrefix(ts: seq<Token>, s: string) {
    exists e :: 0 <= e <= |s| && MatchAll(ts, s[..e])
  }

  predicate MatchesInfix(ts: seq<Token>, s: string) {
    exists a, e :: 0 <= a <= e <= |s| && MatchAll(ts, s[a..e])
  }

  predicate MatchesSuffix(ts: seq<Token>, s: string) {
    exists a :: 0 <= a <= |s| && MatchAll(ts, s[a..])
  }

  /** Which part of a name a branch of the combined pattern can match. */
  predicate BranchMatches(ps: seq<seq<Token>>, i: int, s: string)
    requires 0 <= i < |ps|
  {
    if i == 0 then MatchesPrefix(ps[0], s)
    else if i == |ps| - 1 then MatchesSuffix(ps[i], s)
    else MatchesInfix(ps[i], s)
  }

  /**
   * With two or more patterns, a plain name matches exactly when the first
   * matches a prefix of it, some middle pattern matches anywhere in it, or
   * the last matches a suffix of it.
   */
  lemma MultiplePatterns(ps: seq<seq<Token>>, s: string)
    requires |ps| >= 2 && PlainName(s)
    ensures RegexMatch(Combine(ps), s) <==>
            MatchesPrefix(ps[0], s) ||
            (exists i :: 0 < i < |ps| - 1 && MatchesInfix(ps[i], s)) ||
            MatchesSuffix(ps[|ps| - 1], s)
  {
    if RegexMatch(Combine(ps), s) {
      var i := MatchedBranch(ps, s);
      assert 0 < i < |ps| - 1 ==> MatchesInfix(ps[i], s);
    }
    if MatchesPrefix(ps[0], s) {
      BranchMatchesPattern(ps, 0, s);
    }
    if exists i :: 0 < i < |ps| - 1 && MatchesInfix(ps[i], s) {
      var i :| 0 < i < |ps| - 1 && MatchesInfix(ps[i], s);
      BranchMatchesPattern(ps, i, s);
    }
    if MatchesSuffix(ps[|ps| - 1], s) {
      BranchMatchesPattern(ps, |ps| - 1, s);
    }
  }

  /** A match of the combined pattern is a match of one branch on its part of the name. */
  lemma MatchedBranch(ps: seq<seq<Token>>, s: string) returns (i: int)
    requires |ps| >= 2 && PlainName(s)
    requires RegexMatch(Combine(ps), s)
    ensures 0 <= i < |ps| && BranchMatches(ps, i, s)
  {
    var rx := Combine(ps);
    CombineAnchors(ps);
    var a, e;
    i, a, e :| 0 <= i < |rx| && 0 <= a <= e <= |s| &&
      StartOk(rx[i], s, a) && MatchAll(rx[i].body, s[a..e]) && EndOk(rx[i], s, e);
    if i == 0 {
      assert a == 0 && s[..e] == s[a..e];
    } else if i == |ps| - 1 {
      assert e == |s| && s[a..] == s[a..e];
    }
  }

  /** A branch that matches its part of the name makes the combined pattern match. */
  lemma BranchMatchesPattern(ps: seq<seq<Token>>, i: int, s: string)
    requires |ps| >= 2 && 0 <= i < |ps|
    requires BranchMatches(ps, i, s)
    ensures RegexMatch(Combine(ps), s)
  {
    var rx := Combine(ps);
    CombineAnchors(ps);
    if i == 0 {
      var e :| 0 <= e <= |s| && MatchAll(ps[0], s[..e]);
      assert s[0..e] == s[..e];
      assert StartOk(rx[0], s, 0) && EndOk(rx[0], s, e);
    } else if i == |ps| - 1 {
      var a :| 0 <= a <= |s| && MatchAll(ps[i], s[a..]);
      assert s[a..|s|] == s[a..];
      assert StartOk(rx[i], s, a) && EndOk(rx[i], s, |s|);
    } else {
      var a, e :| 0 <= a <= e <= |s| && MatchAll(ps[i], s[a..e]);
      assert StartOk(rx[i], s, a) && EndOk(rx[i], s, e);
    }
  }

  /** The pattern a single `-name g` builds. */
  function NamePattern(g: string): seq<Branch> {
    Combine([Parse(Fragment(g))])
  }

  /** The glob meanings behind the examples of the `-name` option. */
  lemma GlobExamples()
    ensures GlobMatch("*.txt", "a.txt") && GlobMatch("*.txt", "b.c.txt") && !GlobMatch("*.txt", "a.txt2")
    ensures GlobMatch("file?.log", "file1.log") && !GlobMatch("file?.log", "file12.log")
  {
    StarTxt();
    FileLog();
  }

  lemma StarTxt()
    ensures GlobMatch("*.txt", "a.txt") && GlobMatch("*.txt", "b.c.txt") && !GlobMatch("*.txt", "a.txt2")
  {
    assert GlobMatch(".txt", ".txt");
    assert GlobMatch("*.txt", ".c.txt") by {
      assert GlobMatch("*.txt", "c.txt");
    }
    assert !GlobMatch("*.txt", "txt2") by {
      assert !GlobMatch("*.txt", "xt2") by {
        assert !GlobMatch("*.txt", "t2") by {
          assert !GlobMatch("*.txt", "2");
        }
      }
    }
    assert !GlobMatch("*.txt", ".txt2");
  }

  lemma FileLog()
    ensures GlobMatch("file?.log", "file1.log") && !GlobMatch("file?.log", "file12.log")
  {
    QuestionLog();
    SharedLiteral("file", "?.log", "1.log");
    SharedLiteral("file", "?.log", "12.log");
    assert "file" + "?.log" == "file?.log";
    assert "file" + "1.log" == "file1.log" && "file" + "12.log" == "file12.log";
  }

  /** A prefix without wildcards matches only itself. */
  lemma {:induction false} SharedLiteral(p: string, g: string, t: string)
    requires forall i :: 0 <= i < |p| ==> p[i] != '*' && p[i] != '?'
    ensures GlobMatch(p + g, p + t) <==> GlobMatch(g, t)
  {
    if p != [] {
      assert (p + g)[0] == (p + t)[0] == p[0];
      assert (p + g)[1..] == p[1..] + g && (p + t)[1..] == p[1..] + t;
      SharedLiteral(p[1..], g, t);
    } else {
      assert p + g == g && p + t == t;
    }
  }

  lemma QuestionLog()
    ensures GlobMatch("?.log", "1.log") && !GlobMatch("?.log", "12.log")
  {
    assert GlobMatch(".log", ".log");
    assert !GlobMatch(".log", "2.log");
  }

  /** `*.txt` selects `a.txt`. */
  lemma StarMatchesSimple()
    ensures RegexMatch(NamePattern("*.txt"), "a.txt")
  {
    GlobExamples();
    SinglePattern("*.txt", "a.txt");
  }

  /** `*.txt` does not select `a.txt2`: the pattern is anchored at the end. */
  lemma StarRejectsLonger()
    ensures !RegexMatch(NamePattern("*.txt"), "a.txt2")
  {
    GlobExamples();
    SinglePattern("*.txt", "a.txt2");
  }

  /** `file?.log` selects `file1.log`. */
  lemma QuestionMatchesOne()
    ensures RegexMatch(NamePattern("file?.log"), "file1.log")
  {
    GlobExamples();
    SinglePattern("file?.log", "file1.log");
  }

  /** `file?.log` does not select `file12.log`: `?` stands for one character. */
  lemma QuestionRejectsTwo()
    ensures !RegexMatch(NamePattern("file?.log"), "file12.log")
  {
    GlobExamples();
    SinglePattern("file?.log", "file12.log");
  }

  /**
   * With two patterns the first is not anchored at the end: `-name a -name b`
   * selects `apple`, whose name matches neither glob.
   */
  lemma TwoNamesMatchPrefix()
    ensures RegexMatch(Combine([Parse(Fragment("a")), Parse(Fragment("b"))]), "apple")
    ensures !GlobMatch("a", "apple") && !GlobMatch("b", "apple")
  {
    TranslateIsPerChar("a");
    TranslateIsPerChar("b");
    var ps := [Parse(Fragment("a")), Parse(Fragment("b"))];
    CombineAnchors(ps);
    var rx := Combine(ps);
    assert ps[0] == [Lit('a')];
    assert "apple"[0..1] == "a";
    assert MatchAll(rx[0].body, "apple"[0..1]);
    assert StartOk(rx[0], "apple", 0) && EndOk(rx[0], "apple", 1);
  }
}
