/** Every command tree, printed with all its parentheses, parses back to itself. */
module RoundTrip {
  import opened Syntax

  datatype Way = In | Out | Append

  function Symbol(way: Way): string {
    match way case In => "<" case Out => ">" case Append => ">>"
  }

  /** The kind of token the symbol is. */
  function Kind(way: Way): char {
    match way case In => '<' case Out => '>' case Append => '+'
  }

  /** A command with its words spelled out. */
  datatype Tree =
    | Words(args: seq<string>)
    | Redirect(t: Tree, file: string, way: Way)
    | PipeTo(l: Tree, r: Tree)
    | Then(l: Tree, r: Tree)
    | Background(t: Tree)

  predicate WordText(w: string) {
    w != "" && forall k: nat | k < |w| :: IsWord(w[k])
  }

  /** Words are words, and no simple command has more arguments than the shell takes. */
  predicate Printable(t: Tree) {
    match t
    case Words(args) => |args| < MAXARGS && forall k: nat | k < |args| :: WordText(args[k])
    case Redirect(c, file, _) => Printable(c) && WordText(file)
    case PipeTo(l, r) => Printable(l) && Printable(r)
    case Then(l, r) => Printable(l) && Printable(r)
    case Background(c) => Printable(c)
  }

  function Join(args: seq<string>): string {
    if args == [] then "" else if |args| == 1 then args[0] else args[0] + " " + Join(args[1..])
  }

  function Paren(p: string): string {
    "(" + p + ")"
  }

  function Print(t: Tree): string {
    match t
    case Words(args) => Join(args)
    case Redirect(c, file, way) => Paren(Print(c)) + (Symbol(way) + file)
    case PipeTo(l, r) => Paren(Print(l)) + "|" + Paren(Print(r))
    case Then(l, r) => Paren(Print(l)) + ";" + Paren(Print(r))
    case Background(c) => Paren(Print(c)) + "&"
  }

  function Text(s: string, p: Span): string {
    if p.start <= p.end <= |s| then s[p.start..p.end] else ""
  }

  ghost predicate SameWords(s: string, argv: seq<Span>, args: seq<string>) {
    |argv| == |args| && forall k: nat | k < |args| :: Text(s, argv[k]) == args[k]
  }

  predicate Opens(c: Cmd, way: Way)
    requires c.Redir?
  {
    if way.In? then c.mode == O_RDONLY && c.fd == 0 else c.mode == O_WRONLY_CREATE && c.fd == 1
  }

  /** The parsed command is the tree, its words read off the line. Appending opens the file as
      overwriting does. */
  ghost predicate Means(s: string, c: Cmd, t: Tree) {
    match t
    case Words(args) => c.Exec? && SameWords(s, c.argv, args)
    case Redirect(u, file, way) =>
      c.Redir? && Means(s, c.cmd, u) && Text(s, c.file) == file && Opens(c, way)
    case PipeTo(l, r) => c.Pipe? && Means(s, c.left, l) && Means(s, c.right, r)
    case Then(l, r) => c.List? && Means(s, c.left, l) && Means(s, c.right, r)
    case Background(u) => c.Back? && Means(s, c.cmd, u)
  }

  /** p stands in the line at i. */
  ghost predicate At(s: string, i: nat, p: string) {
    i + |p| <= |s| && s[i..i + |p|] == p
  }

  /** The line ends at j, or a parenthesis closes there. */
  ghost predicate Closes(s: string, j: nat) {
    j == |s| || (j < |s| && s[j] == ')')
  }

  lemma AtSplit(s: string, i: nat, p: string, q: string)
    requires At(s, i, p + q)
    ensures At(s, i, p) && At(s, i + |p|, q)
  {
    assert s[i..i + |p + q|][..|p|] == p;
    assert s[i..i + |p + q|][|p|..] == q;
  }

  lemma AtChar(s: string, i: nat, c: char)
    requires At(s, i, [c])
    ensures i < |s| && s[i] == c
  {
    assert s[i..i + 1][0] == c;
  }

  lemma AtParen(s: string, i: nat, p: string)
    requires At(s, i, Paren(p))
    ensures i + |p| + 2 <= |s| && s[i] == '(' && At(s, i + 1, p) && s[i + 1 + |p|] == ')'
  {
    AtSplit(s, i, "(" + p, ")");
    AtSplit(s, i, "(", p);
    AtChar(s, i, '(');
    AtChar(s, i + 1 + |p|, ')');
  }

  lemma {:induction false} WordEndIs(s: string, i: nat, j: nat)
    requires i <= j <= |s| && (forall k: nat | i <= k < j :: IsWord(s[k])) && (j < |s| ==> !IsWord(s[j]))
    ensures WordEnd(s, i) == j
    decreases j - i
  {
    if i < j {
      WordEndIs(s, i + 1, j);
    }
  }

  /** A word at i, with something else behind it, is one token. */
  lemma WordToken(s: string, i: nat, w: string)
    requires At(s, i, w) && WordText(w) && (i + |w| < |s| ==> !IsWord(s[i + |w|]))
    ensures GetToken(s, i) == Token('a', Span(i, i + |w|), Skip(s, i + |w|)) && Text(s, Span(i, i + |w|)) == w
    ensures i < |s| && IsWord(s[i]) && Skip(s, i) == i
  {
    forall k: nat | i <= k < i + |w| ensures IsWord(s[k]) {
      assert s[k] == s[i..i + |w|][k - i] == w[k - i];
    }
    WordEndIs(s, i, i + |w|);
  }

  lemma NoRedirs(s: string, j: nat)
    requires j <= |s| && (j < |s| ==> !IsWhite(s[j]) && s[j] != '<' && s[j] != '>')
    ensures Redirs(s, j) == Parsed([], j)
  {
  }

  lemma NoArgs(s: string, j: nat, argc: nat)
    requires Closes(s, j)
    ensures Args(s, j, argc) == Parsed(Simple([], []), j)
  {
    assert "|)&;"[1] == ')';
  }

  lemma OneArg(s: string, i: nat, w: string, argc: nat, n: nat, rest: seq<Span>, j: nat)
    requires At(s, i, w) && WordText(w) && (i + |w| < |s| ==> !IsWord(s[i + |w|])) && argc + 1 < MAXARGS
    requires n == Skip(s, i + |w|) && (n < |s| ==> s[n] != '<' && s[n] != '>')
    requires Args(s, n, argc + 1) == Parsed(Simple(rest, []), j)
    ensures Args(s, i, argc) == Parsed(Simple([Span(i, i + |w|)] + rest, []), j)
  {
    hide At;
    WordToken(s, i, w);
    NoRedirs(s, n);
    assert Redirs(s, n).value + Simple(rest, []).redirs == [];
  }

  lemma JoinSplit(args: seq<string>, s: string, i: nat)
    requires |args| > 1 && At(s, i, Join(args))
    ensures At(s, i, args[0]) && At(s, i + |args[0]| + 1, Join(args[1..]))
    ensures i + |args[0]| < |s| && s[i + |args[0]|] == ' ' && |Join(args)| == |args[0]| + 1 + |Join(args[1..])|
  {
    var w := args[0];
    AtSplit(s, i, w + " ", Join(args[1..]));
    AtSplit(s, i, w, " ");
    AtChar(s, i + |w|, ' ');
  }

  lemma SkipOne(s: string, n: nat)
    requires n + 1 < |s| && s[n] == ' ' && IsWord(s[n + 1])
    ensures Skip(s, n) == n + 1 && !IsWord(s[n]) && s[n + 1] != '<' && s[n + 1] != '>'
  {
  }

  lemma LastArg(w: string, s: string, i: nat, argc: nat)
    requires At(s, i, w) && WordText(w) && Closes(s, i + |w|) && argc + 1 < MAXARGS
    ensures Args(s, i, argc) == Parsed(Simple([Span(i, i + |w|)], []), i + |w|)
  {
    hide At, Args, WordText;
    NoArgs(s, i + |w|, argc + 1);
    OneArg(s, i, w, argc, i + |w|, [], i + |w|);
    assert [Span(i, i + |w|)] + [] == [Span(i, i + |w|)];
  }

  lemma {:induction false} PrintedArgs(args: seq<string>, s: string, i: nat, argc: nat) returns (argv: seq<Span>)
    requires At(s, i, Join(args)) && Closes(s, i + |Join(args)|) && argc + |args| < MAXARGS
    requires forall k: nat | k < |args| :: WordText(args[k])
    ensures Args(s, i, argc) == Parsed(Simple(argv, []), i + |Join(args)|) && SameWords(s, argv, args)
    decreases |args|
  {
    hide Args, GetToken, Redirs, WordText, At, Skip, IsWord, IsWhite, Closes, Text;
    if args == [] {
      NoArgs(s, i, argc);
      argv := [];
    } else if |args| == 1 {
      LastArg(args[0], s, i, argc);
      TextAt(s, i, args[0]);
      argv := [Span(i, i + |args[0]|)];
    } else {
      var n := i + |args[0]|;
      JoinSplit(args, s, i);
      JoinStarts(args[1..], s, n + 1);
      SkipOne(s, n);
      var rest := PrintedArgs(args[1..], s, n + 1, argc + 1);
      OneArg(s, i, args[0], argc, n + 1, rest, i + |Join(args)|);
      TextAt(s, i, args[0]);
      argv := [Span(i, n)] + rest;
    }
  }

  lemma TextAt(s: string, i: nat, w: string)
    requires At(s, i, w)
    ensures Text(s, Span(i, i + |w|)) == w
  {
  }

  /** A non-empty list of words starts with a word. */
  lemma JoinStarts(args: seq<string>, s: string, i: nat)
    requires args != [] && At(s, i, Join(args)) && WordText(args[0])
    ensures i < |s| && IsWord(s[i])
  {
    assert s[i] == s[i..i + |Join(args)|][0] == Join(args)[0] == args[0][0];
  }

  /** Nothing but the command itself: a line that goes on with neither |, & nor ;. */
  lemma LineIsCommand(s: string, i: nat, j: nat, c: Cmd)
    requires i <= |s| && Command(s, i) == Parsed(c, j) && Closes(s, j)
    ensures Line(s, i) == Parsed(c, j)
  {
  }

  lemma WordsCommand(s: string, i: nat, argv: seq<Span>, j: nat)
    requires i <= |s| && (i < |s| ==> !IsWhite(s[i]) && s[i] != '(' && s[i] != '<' && s[i] != '>')
    requires Args(s, i, 0) == Parsed(Simple(argv, []), j)
    ensures Command(s, i) == Parsed(Exec(argv), j)
  {
    hide Args, Redirs;
    NoRedirs(s, i);
    assert Redirs(s, i).value + Simple(argv, []).redirs == [];
  }

  lemma PrintedWords(args: seq<string>, s: string, i: nat) returns (c: Cmd)
    requires At(s, i, Join(args)) && Closes(s, i + |Join(args)|) && |args| < MAXARGS
    requires forall k: nat | k < |args| :: WordText(args[k])
    ensures Line(s, i) == Parsed(c, i + |Join(args)|) && Means(s, c, Words(args))
  {
    hide At, Args, SameWords, Line, Command, WordText;
    var argv := PrintedArgs(args, s, i, 0);
    c := Exec(argv);
    if args != [] {
      JoinStarts(args, s, i);
    }
    WordsCommand(s, i, argv, i + |Join(args)|);
    LineIsCommand(s, i, i + |Join(args)|, c);
  }

  /** Nothing printed starts with white space. */
  lemma PrintStarts(t: Tree, s: string, i: nat)
    requires Printable(t) && At(s, i, Print(t)) && Closes(s, i + |Print(t)|)
    ensures i < |s| ==> !IsWhite(s[i])
  {
    if t.Words? {
      if t.args != [] {
        JoinStarts(t.args, s, i);
      }
    } else {
      assert s[i] == s[i..i + |Print(t)|][0] == Print(t)[0] == '(';
    }
  }

  /** A line in parentheses, and the redirections behind it. */
  lemma BlockCommand(s: string, i: nat, n: nat, c: Cmd, rs: seq<Redirection>, j: nat)
    requires i + 1 < |s| && s[i] == '(' && !IsWhite(s[i + 1]) && Line(s, i + 1) == Parsed(c, n)
    requires n < |s| && s[n] == ')' && (n + 1 < |s| ==> !IsWhite(s[n + 1])) && Redirs(s, n + 1) == Parsed(rs, j)
    ensures Command(s, i) == Parsed(Wrap(c, rs), j)
  {
    hide Line, Redirs, Wrap;
  }

  lemma Parenthesised(u: Tree, s: string, i: nat, c: Cmd, rs: seq<Redirection>, j: nat)
    requires Printable(u) && At(s, i, Paren(Print(u))) && Line(s, i + 1) == Parsed(c, i + 1 + |Print(u)|)
    requires var k := i + 2 + |Print(u)|; (k < |s| ==> !IsWhite(s[k])) && Redirs(s, k) == Parsed(rs, j)
    ensures Command(s, i) == Parsed(Wrap(c, rs), j)
  {
    hide Line, Redirs, Wrap, Print, Printable, At;
    AtParen(s, i, Print(u));
    PrintStarts(u, s, i + 1);
    BlockCommand(s, i, i + 1 + |Print(u)|, c, rs, j);
  }

  /** The symbol stands at k, and a word behind it. */
  ghost predicate SymbolAt(s: string, k: nat, way: Way) {
    var n := k + |Symbol(way)|;
    n < |s| && IsWord(s[n]) && At(s, k, Symbol(way))
  }

  lemma SymbolToken(s: string, k: nat, way: Way)
    requires SymbolAt(s, k, way)
    ensures k < |s| && !IsWhite(s[k]) && Peek(s, k, "<>") && Skip(s, k) == k
    ensures var n := k + |Symbol(way)|; GetToken(s, k) == Token(Kind(way), Span(k, n), n)
  {
    assert "<>"[0] == '<' && "<>"[1] == '>';
    assert forall j: nat | k <= j < k + |Symbol(way)| :: s[j] == s[k..k + |Symbol(way)|][j - k] == Symbol(way)[j - k];
  }

  lemma OneRedir(s: string, k: nat, way: Way, n: nat)
    requires SymbolAt(s, k, way)
    requires var m := k + |Symbol(way)|; GetToken(s, m) == Token('a', Span(m, n), n) && Redirs(s, n) == Parsed([], n)
    ensures Redirs(s, k) == Parsed([RedirectionOf(Kind(way), Span(k + |Symbol(way)|, n))], n)
  {
    hide WordEnd, GetToken, SymbolAt;
    SymbolToken(s, k, way);
    var r := RedirectionOf(Kind(way), Span(k + |Symbol(way)|, n));
    assert [r] + [] == [r];
  }

  lemma RedirAt(s: string, k: nat, f: string, way: Way)
    requires At(s, k, Symbol(way) + f) && WordText(f) && Closes(s, k + |Symbol(way)| + |f|)
    ensures k < |s| && !IsWhite(s[k])
    ensures var m := k + |Symbol(way)|;
            && Redirs(s, k) == Parsed([RedirectionOf(Kind(way), Span(m, m + |f|))], m + |f|)
            && Text(s, Span(m, m + |f|)) == f
  {
    hide At, WordText, Redirs, GetToken;
    var m := k + |Symbol(way)|;
    AtSplit(s, k, Symbol(way), f);
    WordToken(s, m, f);
    NoRedirs(s, m + |f|);
    OneRedir(s, k, way, m + |f|);
    SymbolToken(s, k, way);
  }

  lemma PipeLine(s: string, i: nat, k: nat, c1: Cmd, c2: Cmd, j: nat)
    requires i <= |s| && Command(s, i) == Parsed(c1, k) && k + 1 < |s| && s[k] == '|' && !IsWhite(s[k + 1])
    requires Command(s, k + 1) == Parsed(c2, j) && Closes(s, j)
    ensures Line(s, i) == Parsed(Pipe(c1, c2), j)
  {
    hide Command;
    assert Pipeline(s, k + 1) == Parsed(c2, j);
    assert "|"[0] == '|';
    assert Pipeline(s, i) == Parsed(Pipe(c1, c2), j);
  }

  lemma ThenLine(s: string, i: nat, k: nat, c1: Cmd, c2: Cmd, j: nat)
    requires i <= |s| && Command(s, i) == Parsed(c1, k) && k + 1 < |s| && s[k] == ';' && !IsWhite(s[k + 1])
    requires Command(s, k + 1) == Parsed(c2, j) && Closes(s, j)
    ensures Line(s, i) == Parsed(List(c1, c2), j)
  {
    hide Command;
    LineIsCommand(s, k + 1, j, c2);
    assert ";"[0] == ';';
    assert Pipeline(s, i) == Parsed(c1, k);
  }

  lemma BackLine(s: string, i: nat, k: nat, c: Cmd)
    requires i <= |s| && Command(s, i) == Parsed(c, k) && k < |s| && s[k] == '&' && Closes(s, k + 1)
    ensures Line(s, i) == Parsed(Back(c), k + 1)
  {
    hide Command;
    assert "&"[0] == '&';
    assert Pipeline(s, i) == Parsed(c, k);
    assert Backs(s, k, c) == Parsed(Back(c), k + 1);
  }

  /** Two parenthesised trees with a symbol between them. */
  lemma AtPair(s: string, i: nat, p: string, sym: char, q: string)
    requires At(s, i, Paren(p) + [sym] + Paren(q))
    ensures var k := i + 2 + |p|; At(s, i, Paren(p)) && k < |s| && s[k] == sym && At(s, k + 1, Paren(q))
  {
    AtSplit(s, i, Paren(p) + [sym], Paren(q));
    AtSplit(s, i, Paren(p), [sym]);
    AtChar(s, i + 2 + |p|, sym);
  }

  lemma PairCommands(l: Tree, r: Tree, sym: char, s: string, i: nat, c1: Cmd, c2: Cmd)
    requires Printable(l) && Printable(r) && At(s, i, Paren(Print(l)) + [sym] + Paren(Print(r)))
    requires !IsWhite(sym) && sym != '<' && sym != '>'
    requires Line(s, i + 1) == Parsed(c1, i + 1 + |Print(l)|)
    requires var k := i + 2 + |Print(l)|; var j := k + 3 + |Print(r)|;
             Line(s, k + 2) == Parsed(c2, k + 2 + |Print(r)|) && Closes(s, j)
    ensures var k := i + 2 + |Print(l)|;
            && Command(s, i) == Parsed(c1, k) && k + 1 < |s| && s[k] == sym && !IsWhite(s[k + 1])
            && Command(s, k + 1) == Parsed(c2, k + 3 + |Print(r)|)
  {
    hide Line, Print, Printable, At, Command;
    var k := i + 2 + |Print(l)|;
    AtPair(s, i, Print(l), sym, Print(r));
    NoRedirs(s, k);
    Parenthesised(l, s, i, c1, [], k);
    NoRedirs(s, k + 3 + |Print(r)|);
    AtParen(s, k + 1, Print(r));
    Parenthesised(r, s, k + 1, c2, [], k + 3 + |Print(r)|);
  }

  /** A printed tree, standing anywhere in a line before the end or a closing parenthesis, parses to
      itself. */
  lemma {:induction false} PrintedLine(t: Tree, s: string, i: nat) returns (c: Cmd)
    requires Printable(t) && At(s, i, Print(t)) && Closes(s, i + |Print(t)|)
    ensures Line(s, i) == Parsed(c, i + |Print(t)|) && Means(s, c, t)
    decreases t
  {
    hide Line, Command, At, Text, Closes;
    match t {
      case Words(args) =>
        c := PrintedWords(args, s, i);
      case Redirect(u, f, way) =>
        c := PrintedRedirect(u, f, way, s, i);
      case PipeTo(l, r) =>
        c := PrintedPipe(l, r, s, i);
      case Then(l, r) =>
        c := PrintedThen(l, r, s, i);
      case Background(u) =>
        c := PrintedBackground(u, s, i);
    }
  }

  lemma {:induction false} PrintedPipe(l: Tree, r: Tree, s: string, i: nat) returns (c: Cmd)
    requires Printable(l) && Printable(r) && At(s, i, Print(PipeTo(l, r))) && Closes(s, i + |Print(PipeTo(l, r))|)
    ensures Line(s, i) == Parsed(c, i + |Print(PipeTo(l, r))|) && Means(s, c, PipeTo(l, r))
    decreases PipeTo(l, r), 1
  {
    hide Line, Command, At, Text, Printable, Closes;
    var c1, c2 := PrintedPair(l, r, '|', s, i, PipeTo(l, r));
    c := Pipe(c1, c2);
    PipeLine(s, i, i + 2 + |Print(l)|, c1, c2, i + |Print(PipeTo(l, r))|);
  }

  lemma {:induction false} PrintedThen(l: Tree, r: Tree, s: string, i: nat) returns (c: Cmd)
    requires Printable(l) && Printable(r) && At(s, i, Print(Then(l, r))) && Closes(s, i + |Print(Then(l, r))|)
    ensures Line(s, i) == Parsed(c, i + |Print(Then(l, r))|) && Means(s, c, Then(l, r))
    decreases Then(l, r), 1
  {
    hide Line, Command, At, Text, Printable, Closes;
    var c1, c2 := PrintedPair(l, r, ';', s, i, Then(l, r));
    c := List(c1, c2);
    ThenLine(s, i, i + 2 + |Print(l)|, c1, c2, i + |Print(Then(l, r))|);
  }

  lemma {:induction false} PrintedRedirect(u: Tree, f: string, way: Way, s: string, i: nat) returns (c: Cmd)
    requires Printable(u) && WordText(f)
    requires At(s, i, Print(Redirect(u, f, way))) && Closes(s, i + |Print(Redirect(u, f, way))|)
    ensures Line(s, i) == Parsed(c, i + |Print(Redirect(u, f, way))|) && Means(s, c, Redirect(u, f, way))
    decreases Redirect(u, f, way), 0
  {
    hide Line, At, Text, Printable, WordText, Symbol, Opens;
    RedirectParts(u, f, way, s, i);
    var d := PrintedLine(u, s, i + 1);
    c := RedirectLine(u, f, way, s, i, d);
  }

  lemma {:induction false} PrintedBackground(u: Tree, s: string, i: nat) returns (c: Cmd)
    requires Printable(u) && At(s, i, Print(Background(u))) && Closes(s, i + |Print(Background(u))|)
    ensures Line(s, i) == Parsed(c, i + |Print(Background(u))|) && Means(s, c, Background(u))
    decreases Background(u), 0
  {
    hide Line, At, Text, Printable;
    AtSplit(s, i, Paren(Print(u)), "&");
    AtParen(s, i, Print(u));
    var d := PrintedLine(u, s, i + 1);
    c := Back(d);
    BackgroundLine(u, s, i, d);
  }

  lemma RedirectParts(u: Tree, f: string, way: Way, s: string, i: nat)
    requires At(s, i, Print(Redirect(u, f, way)))
    ensures At(s, i, Paren(Print(u)) + (Symbol(way) + f)) && At(s, i + 1, Print(u))
    ensures i + 2 + |Print(u)| <= |s| && s[i + 1 + |Print(u)|] == ')'
  {
    hide At;
    AtSplit(s, i, Paren(Print(u)), Symbol(way) + f);
    AtParen(s, i, Print(u));
  }

  lemma RedirectLine(u: Tree, f: string, way: Way, s: string, i: nat, d: Cmd) returns (c: Cmd)
    requires Printable(u) && WordText(f) && At(s, i, Paren(Print(u)) + (Symbol(way) + f))
    requires Line(s, i + 1) == Parsed(d, i + 1 + |Print(u)|) && Closes(s, i + 2 + |Print(u)| + |Symbol(way)| + |f|)
    ensures Line(s, i) == Parsed(c, i + 2 + |Print(u)| + |Symbol(way)| + |f|)
    ensures c.Redir? && c.cmd == d && Text(s, c.file) == f && Opens(c, way)
  {
    hide Line, Command, At, Redirs, Text, Print, Printable, WordText, Symbol;
    var k := i + 2 + |Print(u)|;
    var m := k + |Symbol(way)|;
    AtSplit(s, i, Paren(Print(u)), Symbol(way) + f);
    RedirAt(s, k, f, way);
    var r := RedirectionOf(Kind(way), Span(m, m + |f|));
    Parenthesised(u, s, i, d, [r], m + |f|);
    c := Wrap(d, [r]);
    LineIsCommand(s, i, m + |f|, c);
  }

  lemma BackgroundLine(u: Tree, s: string, i: nat, d: Cmd)
    requires Printable(u) && At(s, i, Paren(Print(u)) + "&")
    requires Line(s, i + 1) == Parsed(d, i + 1 + |Print(u)|) && Closes(s, i + 3 + |Print(u)|)
    ensures Line(s, i) == Parsed(Back(d), i + 3 + |Print(u)|)
  {
    hide Line, Command, At, Redirs, Print, Printable;
    var k := i + 2 + |Print(u)|;
    AtSplit(s, i, Paren(Print(u)), "&");
    AtChar(s, k, '&');
    NoRedirs(s, k);
    Parenthesised(u, s, i, d, [], k);
    BackLine(s, i, k, d);
  }

  lemma {:induction false} PrintedPair(l: Tree, r: Tree, sym: char, s: string, i: nat, t: Tree)
    returns (c1: Cmd, c2: Cmd)
    requires (t == PipeTo(l, r) || t == Then(l, r)) && (sym == '|' || sym == ';') && Printable(l) && Printable(r)
    requires At(s, i, Paren(Print(l)) + [sym] + Paren(Print(r))) && Closes(s, i + 5 + |Print(l)| + |Print(r)|)
    ensures Means(s, c1, l) && Means(s, c2, r)
    ensures var k := i + 2 + |Print(l)|;
            && Command(s, i) == Parsed(c1, k) && k + 1 < |s| && s[k] == sym && !IsWhite(s[k + 1])
            && Command(s, k + 1) == Parsed(c2, i + 5 + |Print(l)| + |Print(r)|)
    decreases t, 0
  {
    hide Line, Command, At, Means, Print, Printable;
    var k := i + 2 + |Print(l)|;
    AtPair(s, i, Print(l), sym, Print(r));
    AtParen(s, i, Print(l));
    AtParen(s, k + 1, Print(r));
    c1 := PrintedLine(l, s, i + 1);
    c2 := PrintedLine(r, s, k + 2);
    PairCommands(l, r, sym, s, i, c1, c2);
  }

  /** parsecmd undoes the printer. */
  lemma PrintThenParse(t: Tree) returns (c: Cmd)
    requires Printable(t)
    ensures WholeLine(Print(t)) == Parsed(c, |Print(t)|) && Means(Print(t), c, t)
  {
    hide Line, Means, Printable;
    assert At(Print(t), 0, Print(t));
    c := PrintedLine(t, Print(t), 0);
  }
}
