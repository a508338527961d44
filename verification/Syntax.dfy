/** The shell's grammar as functions: what sh.c's tokens and parser yield from each position of a line. */
module Syntax {
  const MAXARGS := 10
  const O_RDONLY := 0
  const O_WRONLY_CREATE := 0x201

  predicate IsWhite(c: char) { c == ' ' || c == '\t' || c == '\r' || c == '\n' || c == '\U{b}' }

  predicate IsSymbol(c: char) { c == '<' || c == '|' || c == '>' || c == '&' || c == ';' || c == '(' || c == ')' }

  predicate IsWord(c: char) { !IsWhite(c) && !IsSymbol(c) }

  /** A piece of the line: from start up to, not including, end. */
  datatype Span = Span(start: nat, end: nat)

  /** A parsed command; words and file names are pieces of the line. */
  datatype Cmd =
    | Exec(argv: seq<Span>)
    | Redir(cmd: Cmd, file: Span, mode: int, fd: int)
    | Pipe(left: Cmd, right: Cmd)
    | List(left: Cmd, right: Cmd)
    | Back(cmd: Cmd)

  datatype Redirection = Redirection(file: Span, mode: int, fd: int)

  /** Redirections wrap the command in the order in which they stand. */
  function Wrap(cmd: Cmd, rs: seq<Redirection>): Cmd {
    if rs == [] then cmd
    else var r := rs[|rs| - 1]; Redir(Wrap(cmd, rs[..|rs| - 1]), r.file, r.mode, r.fd)
  }

  datatype Result<+T> = Parsed(value: T, next: nat) | Panic

  /** The next position from i on that is not white space. */
  function Skip(s: string, i: nat): (r: nat)
    requires i <= |s|
    ensures i <= r <= |s| && (r < |s| ==> !IsWhite(s[r]))
    decreases |s| - i
  {
    if i < |s| && IsWhite(s[i]) then Skip(s, i + 1) else i
  }

  /** The end of the word that starts at i. */
  function WordEnd(s: string, i: nat): (r: nat)
    requires i <= |s|
    ensures i <= r <= |s| && (r < |s| ==> !IsWord(s[r])) && forall k: nat | i <= k < r :: IsWord(s[k])
    ensures i < |s| && IsWord(s[i]) ==> i < r
    decreases |s| - i
  {
    if i < |s| && IsWord(s[i]) then WordEnd(s, i + 1) else i
  }

  /** What gettoken returns: the kind of token, where it lies, and where the next one may start. */
  datatype Token = Token(kind: char, span: Span, next: nat)

  function GetToken(s: string, i: nat): (t: Token)
    requires i <= |s|
    ensures i <= t.span.start <= t.span.end <= t.next <= |s|
    ensures t.kind == '\0' <==> Skip(s, i) == |s|
    ensures t.kind != '\0' ==> i < t.next
  {
    var q := Skip(s, i);
    if q == |s| then Token('\0', Span(q, q), q)
    else if s[q] == '>' && q + 1 < |s| && s[q + 1] == '>' then Token('+', Span(q, q + 2), Skip(s, q + 2))
    else if IsSymbol(s[q]) then Token(s[q], Span(q, q + 1), Skip(s, q + 1))
    else Token('a', Span(q, WordEnd(s, q)), Skip(s, WordEnd(s, q)))
  }

  /** peek's answer; the cursor moves to Skip(s, i). */
  predicate Peek(s: string, i: nat, toks: string)
    requires i <= |s|
  {
    Skip(s, i) < |s| && s[Skip(s, i)] in toks
  }

  function RedirectionOf(kind: char, file: Span): Redirection {
    if kind == '<' then Redirection(file, O_RDONLY, 0) else Redirection(file, O_WRONLY_CREATE, 1)
  }

  /** The redirections from i on. */
  function Redirs(s: string, i: nat): (r: Result<seq<Redirection>>)
    requires i <= |s|
    ensures r.Parsed? ==> i <= r.next <= |s|
    decreases |s| - i
  {
    if !Peek(s, i, "<>") then Parsed([], Skip(s, i)) else
    var t := GetToken(s, Skip(s, i));
    var f := GetToken(s, t.next);
    if f.kind != 'a' then Panic else
    match Redirs(s, f.next)
    case Panic => Panic
    case Parsed(rest, next) => Parsed([RedirectionOf(t.kind, f.span)] + rest, next)
  }

  /** The arguments of a simple command, and the redirections among them. */
  datatype Simple = Simple(argv: seq<Span>, redirs: seq<Redirection>)

  function Args(s: string, i: nat, argc: nat): (r: Result<Simple>)
    requires i <= |s|
    ensures r.Parsed? ==> i <= r.next <= |s|
    decreases |s| - i
  {
    if Peek(s, i, "|)&;") then Parsed(Simple([], []), Skip(s, i)) else
    var t := GetToken(s, Skip(s, i));
    if t.kind == '\0' then Parsed(Simple([], []), t.next)
    else if t.kind != 'a' || argc + 1 >= MAXARGS then Panic else
    match Redirs(s, t.next)
    case Panic => Panic
    case Parsed(rs, n) =>
      match Args(s, n, argc + 1)
      case Panic => Panic
      case Parsed(rest, next) => Parsed(Simple([t.span] + rest.argv, rs + rest.redirs), next)
  }

  function Line(s: string, i: nat): (r: Result<Cmd>)
    requires i <= |s|
    ensures r.Parsed? ==> i <= r.next <= |s|
    decreases |s| - i, 3
  {
    match Pipeline(s, i)
    case Panic => Panic
    case Parsed(c, n) =>
      var b := Backs(s, n, c);
      if !Peek(s, b.next, ";") then Parsed(b.value, Skip(s, b.next)) else
      match Line(s, GetToken(s, Skip(s, b.next)).next)
      case Panic => Panic
      case Parsed(rest, next) => Parsed(List(b.value, rest), next)
  }

  /** As many & as there are. */
  function Backs(s: string, i: nat, c: Cmd): (r: Result<Cmd>)
    requires i <= |s|
    ensures r.Parsed? && i <= r.next <= |s|
    decreases |s| - i
  {
    if Peek(s, i, "&") then Backs(s, GetToken(s, Skip(s, i)).next, Back(c)) else Parsed(c, Skip(s, i))
  }

  function Pipeline(s: string, i: nat): (r: Result<Cmd>)
    requires i <= |s|
    ensures r.Parsed? ==> i <= r.next <= |s|
    decreases |s| - i, 2
  {
    match Command(s, i)
    case Panic => Panic
    case Parsed(c, n) =>
      if !Peek(s, n, "|") then Parsed(c, Skip(s, n)) else
      match Pipeline(s, GetToken(s, Skip(s, n)).next)
      case Panic => Panic
      case Parsed(rest, next) => Parsed(Pipe(c, rest), next)
  }

  function Command(s: string, i: nat): (r: Result<Cmd>)
    requires i <= |s|
    ensures r.Parsed? ==> i <= r.next <= |s|
    decreases |s| - i, 1
  {
    if Peek(s, i, "(") then Block(s, Skip(s, i)) else
    match Redirs(s, Skip(s, i))
    case Panic => Panic
    case Parsed(rs, n) =>
      match Args(s, n, 0)
      case Panic => Panic
      case Parsed(a, next) => Parsed(Wrap(Exec(a.argv), rs + a.redirs), next)
  }

  function Block(s: string, i: nat): (r: Result<Cmd>)
    requires i <= |s| && Peek(s, i, "(")
    ensures r.Parsed? ==> i <= r.next <= |s|
    decreases |s| - i, 0
  {
    match Line(s, GetToken(s, Skip(s, i)).next)
    case Panic => Panic
    case Parsed(c, n) =>
      if !Peek(s, n, ")") then Panic else
      match Redirs(s, GetToken(s, Skip(s, n)).next)
      case Panic => Panic
      case Parsed(rs, next) => Parsed(Wrap(c, rs), next)
  }

  /** parsecmd: the whole line, or a panic. */
  function WholeLine(s: string): Result<Cmd> {
    match Line(s, 0)
    case Panic => Panic
    case Parsed(c, n) => if Skip(s, n) == |s| then Parsed(c, |s|) else Panic
  }
}
