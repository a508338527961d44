/** The shell's parser (sh.c): a cursor that moves over the line, and the NUL bytes written into the
    line afterwards. */
module Shell {
  import opened Syntax
  import opened RoundTrip

  class Parser {
    const s: string          // the line, without its terminating NUL
    var ps: nat              // *ps; es is |s|

    constructor (s: string)
      ensures this.s == s && ps == 0
    {
      this.s := s;
      ps := 0;
    }

    method SkipWhite()
      requires ps <= |s|
      modifies `ps
      ensures ps == Skip(s, old(ps))
    {
      while ps < |s| && IsWhite(s[ps])
        invariant ps <= |s| && Skip(s, ps) == Skip(s, old(ps))
      {
        ps := ps + 1;
      }
    }

    method GetToken() returns (kind: char, token: Span)
      requires ps <= |s|
      modifies `ps
      ensures Token(kind, token, ps) == Syntax.GetToken(s, old(ps))
    {
      SkipWhite();
      var q := ps;
      if ps == |s| {
        kind := '\0';
      } else if s[ps] == '>' {
        kind := '>';
        ps := ps + 1;
        if ps < |s| && s[ps] == '>' {
          kind := '+';
          ps := ps + 1;
        }
      } else if IsSymbol(s[ps]) {
        kind := s[ps];
        ps := ps + 1;
      } else {
        kind := 'a';
        while ps < |s| && IsWord(s[ps])
          invariant q <= ps <= |s| && WordEnd(s, ps) == WordEnd(s, q)
        {
          ps := ps + 1;
        }
      }
      token := Span(q, ps);
      SkipWhite();
    }

    method PeekFor(toks: string) returns (found: bool)
      requires ps <= |s|
      modifies `ps
      ensures found == Peek(s, old(ps), toks) && ps == Skip(s, old(ps))
    {
      SkipWhite();
      found := ps < |s| && s[ps] in toks;
    }

    /** parseredirs; the caller wraps its command in what this returns. */
    method ParseRedirs() returns (ok: bool, rs: seq<Redirection>)
      requires ps <= |s|
      modifies `ps
      ensures ok <==> Redirs(s, old(ps)).Parsed?
      ensures ok ==> Redirs(s, old(ps)) == Parsed(rs, ps)
    {
      hide Redirs, Syntax.GetToken, Skip;
      rs := [];
      RedirsSkip(s, ps);
      var more := PeekFor("<>");
      while more
        invariant ps <= |s| && ps == Skip(s, ps) && (more <==> Peek(s, ps, "<>"))
        invariant Continues(Redirs(s, old(ps)), rs, Redirs(s, ps))
        decreases |s| - ps
      {
        RedirsMore(s, ps);
        var kind, op := GetToken();
        var kind2, file := GetToken();
        if kind2 != 'a' {
          return false, rs;
        }
        RedirsSkip(s, ps);
        rs := rs + [RedirectionOf(kind, file)];
        more := PeekFor("<>");
      }
      RedirsEnd(s, ps);
      assert rs + [] == rs;
      return true, rs;
    }

    /** parseexec's loop: the arguments, and the redirections among them. */
    method ParseArgs() returns (ok: bool, argv: seq<Span>, rs: seq<Redirection>)
      requires ps <= |s|
      modifies `ps
      ensures ok <==> Args(s, old(ps), 0).Parsed?
      ensures ok ==> Args(s, old(ps), 0) == Parsed(Simple(argv, rs), ps)
    {
      hide Args, Redirs, Syntax.GetToken, Skip;
      argv, rs := [], [];
      ArgsSkip(s, ps, 0);
      ExtendsNone(Args(s, ps, 0));
      var stop := PeekFor("|)&;");
      while !stop
        invariant ps <= |s| && ps == Skip(s, ps) && (stop <==> Peek(s, ps, "|)&;")) && |argv| < MAXARGS
        invariant Extends(Args(s, old(ps), 0), argv, rs, Args(s, ps, |argv|))
        decreases |s| - ps
      {
        ArgsMore(s, ps, |argv|);
        ghost var i := ps;
        var kind, word := GetToken();
        if kind == '\0' {
          assert argv + [] == argv && rs + [] == rs;
          return true, argv, rs;
        }
        if kind != 'a' {
          return false, argv, rs;
        }
        argv := argv + [word];
        if |argv| >= MAXARGS {
          return false, argv, rs;
        }
        var more;
        ok, more := ParseRedirs();
        if !ok {
          return false, argv, rs;
        }
        ExtendsMore(Args(s, old(ps), 0), argv[..|argv| - 1], rs, Args(s, i, |argv| - 1), [word], more,
                    Args(s, ps, |argv|));
        rs := rs + more;
        ArgsSkip(s, ps, |argv|);
        stop := PeekFor("|)&;");
      }
      ArgsEnd(s, ps, |argv|);
      assert argv + [] == argv && rs + [] == rs;
      return true, argv, rs;
    }

    /** parseline; false is a panic. */
    method ParseLine() returns (ok: bool, cmd: Cmd)
      requires ps <= |s|
      modifies `ps
      ensures ok <==> Line(s, old(ps)).Parsed?
      ensures ok ==> Line(s, old(ps)) == Parsed(cmd, ps)
      decreases |s| - ps, 3
    {
      hide Line, Pipeline, Backs, Syntax.GetToken, Skip;
      LineCases(s, ps);
      ok, cmd := ParsePipe();
      if !ok {
        return;
      }
      ghost var n, c := ps, cmd;
      BacksSkip(s, ps, cmd);
      var more := PeekFor("&");
      while more
        invariant ps <= |s| && old(ps) <= ps && ps == Skip(s, ps) && (more <==> Peek(s, ps, "&"))
        invariant Backs(s, n, c) == Backs(s, ps, cmd)
        decreases |s| - ps
      {
        BacksMore(s, ps, cmd);
        var kind, amp := GetToken();
        cmd := Back(cmd);
        BacksSkip(s, ps, cmd);
        more := PeekFor("&");
      }
      BacksEnd(s, ps, cmd);
      var semi := PeekFor(";");
      if semi {
        var kind, tok := GetToken();
        var rest;
        ok, rest := ParseLine();
        cmd := List(cmd, rest);
      }
    }

    /** parsepipe */
    method ParsePipe() returns (ok: bool, cmd: Cmd)
      requires ps <= |s|
      modifies `ps
      ensures ok <==> Pipeline(s, old(ps)).Parsed?
      ensures ok ==> Pipeline(s, old(ps)) == Parsed(cmd, ps)
      decreases |s| - ps, 2
    {
      hide Command, Syntax.GetToken, Skip;
      ok, cmd := ParseExec();
      if !ok {
        return;
      }
      var bar := PeekFor("|");
      if bar {
        var kind, tok := GetToken();
        var rest;
        ok, rest := ParsePipe();
        cmd := Pipe(cmd, rest);
      }
    }

    /** parseexec */
    method ParseExec() returns (ok: bool, cmd: Cmd)
      requires ps <= |s|
      modifies `ps
      ensures ok <==> Command(s, old(ps)).Parsed?
      ensures ok ==> Command(s, old(ps)) == Parsed(cmd, ps)
      decreases |s| - ps, 1
    {
      hide Block, Syntax.GetToken, Skip, Redirs, Args, Wrap;
      cmd := Exec([]);
      RedirsSkip(s, ps);
      var paren := PeekFor("(");
      if paren {
        ok, cmd := ParseBlock();
        return;
      }
      var argv, rs, more;
      ok, rs := ParseRedirs();
      if !ok {
        return;
      }
      ok, argv, more := ParseArgs();
      cmd := Wrap(Exec(argv), rs + more);
    }

    /** parseblock */
    method ParseBlock() returns (ok: bool, cmd: Cmd)
      requires ps <= |s| && Peek(s, ps, "(") && Skip(s, ps) == ps
      modifies `ps
      ensures ok <==> Block(s, old(ps)).Parsed?
      ensures ok ==> Block(s, old(ps)) == Parsed(cmd, ps)
      decreases |s| - ps, 0
    {
      hide Line, Syntax.GetToken, Skip, Redirs, Wrap;
      var kind, open := GetToken();
      ok, cmd := ParseLine();
      if !ok {
        return;
      }
      ok := PeekFor(")");
      if !ok {
        return;
      }
      var kind2, close := GetToken();
      var rs;
      ok, rs := ParseRedirs();
      cmd := Wrap(cmd, rs);
    }

    /** parsecmd before nulterminate: the whole line is one command, or the parser panics. */
    method ParseCmd() returns (ok: bool, cmd: Cmd)
      requires ps == 0
      modifies `ps
      ensures ok <==> WholeLine(s).Parsed?
      ensures ok ==> WholeLine(s) == Parsed(cmd, |s|)
    {
      hide Line;
      ok, cmd := ParseLine();
      if ok {
        SkipWhite();
        ok := ps == |s|;
      }
    }
  }

  /** The same for arguments. */
  ghost predicate Extends(all: Result<Simple>, argv: seq<Span>, rs: seq<Redirection>, rest: Result<Simple>) {
    && (all.Parsed? <==> rest.Parsed?)
    && (all.Parsed? ==> all == Parsed(Simple(argv + rest.value.argv, rs + rest.value.redirs), rest.next))
  }

  lemma ExtendsNone(all: Result<Simple>)
    ensures Extends(all, [], [], all)
  {
    if all.Parsed? {
      assert [] + all.value.argv == all.value.argv && [] + all.value.redirs == all.value.redirs;
    }
  }

  lemma ExtendsMore(all: Result<Simple>, argv: seq<Span>, rs: seq<Redirection>, mid: Result<Simple>,
                    argv1: seq<Span>, rs1: seq<Redirection>, rest: Result<Simple>)
    requires Extends(all, argv, rs, mid) && Extends(mid, argv1, rs1, rest)
    ensures Extends(all, argv + argv1, rs + rs1, rest)
  {
    if rest.Parsed? {
      assert argv + (argv1 + rest.value.argv) == argv + argv1 + rest.value.argv;
      assert rs + (rs1 + rest.value.redirs) == rs + rs1 + rest.value.redirs;
    }
  }

  lemma ArgsSkip(s: string, i: nat, argc: nat)
    requires i <= |s|
    ensures Skip(s, Skip(s, i)) == Skip(s, i) && Args(s, Skip(s, i), argc) == Args(s, i, argc)
  {
  }

  lemma ArgsEnd(s: string, i: nat, argc: nat)
    requires i <= |s| && Peek(s, i, "|)&;")
    ensures Args(s, i, argc) == Parsed(Simple([], []), Skip(s, i))
  {
  }

  lemma ArgsMore(s: string, i: nat, argc: nat)
    requires i <= |s| && !Peek(s, i, "|)&;") && Skip(s, i) == i
    ensures var t := Syntax.GetToken(s, i);
            if t.kind == '\0' then Args(s, i, argc) == Parsed(Simple([], []), t.next)
            else if t.kind != 'a' || argc + 1 >= MAXARGS then Args(s, i, argc).Panic?
            else i < t.next && match Redirs(s, t.next)
                               case Panic => Args(s, i, argc).Panic?
                               case Parsed(rs, n) => Extends(Args(s, i, argc), [t.span], rs, Args(s, n, argc + 1))
  {
  }

  lemma BacksSkip(s: string, i: nat, c: Cmd)
    requires i <= |s|
    ensures Skip(s, Skip(s, i)) == Skip(s, i) && Backs(s, Skip(s, i), c) == Backs(s, i, c)
  {
  }

  lemma BacksMore(s: string, i: nat, c: Cmd)
    requires i <= |s| && Peek(s, i, "&") && Skip(s, i) == i
    ensures i < Syntax.GetToken(s, i).next && Backs(s, i, c) == Backs(s, Syntax.GetToken(s, i).next, Back(c))
  {
  }

  lemma BacksEnd(s: string, i: nat, c: Cmd)
    requires i <= |s| && !Peek(s, i, "&")
    ensures Backs(s, i, c) == Parsed(c, Skip(s, i))
  {
  }

  lemma LineCases(s: string, i: nat)
    requires i <= |s|
    ensures Pipeline(s, i).Panic? ==> Line(s, i).Panic?
    ensures Pipeline(s, i).Parsed? ==>
              var b := Backs(s, Pipeline(s, i).next, Pipeline(s, i).value);
              if !Peek(s, b.next, ";") then Line(s, i) == Parsed(b.value, Skip(s, b.next))
              else match Line(s, Syntax.GetToken(s, Skip(s, b.next)).next)
                   case Panic => Line(s, i).Panic?
                   case Parsed(rest, next) => Line(s, i) == Parsed(List(b.value, rest), next)
  {
  }

  /** all is rs followed by the rest; both fail or neither. */
  ghost predicate Continues(all: Result<seq<Redirection>>, rs: seq<Redirection>, rest: Result<seq<Redirection>>) {
    && (all.Parsed? <==> rest.Parsed?)
    && (all.Parsed? ==> all.value == rs + rest.value && all.next == rest.next)
  }

  lemma RedirsSkip(s: string, i: nat)
    requires i <= |s|
    ensures Skip(s, Skip(s, i)) == Skip(s, i) && Redirs(s, Skip(s, i)) == Redirs(s, i)
  {
  }

  lemma RedirsEnd(s: string, i: nat)
    requires i <= |s| && !Peek(s, i, "<>")
    ensures Redirs(s, i) == Parsed([], Skip(s, i))
  {
  }

  lemma RedirsMore(s: string, i: nat)
    requires i <= |s| && Peek(s, i, "<>") && Skip(s, i) == i
    ensures var t := Syntax.GetToken(s, i);
            var f := Syntax.GetToken(s, t.next);
            if f.kind != 'a' then Redirs(s, i).Panic?
            else i < f.next && Continues(Redirs(s, i), [RedirectionOf(t.kind, f.span)], Redirs(s, f.next))
  {
  }

  /** The words and file names of a command. */
  ghost function Spans(c: Cmd): set<Span> {
    match c
    case Exec(argv) => set p | p in argv
    case Redir(d, file, _, _) => Spans(d) + {file}
    case Pipe(l, r) => Spans(l) + Spans(r)
    case List(l, r) => Spans(l) + Spans(r)
    case Back(d) => Spans(d)
  }

  /** A whole word of the line. */
  ghost predicate GoodSpan(s: string, p: Span) {
    && p.start < p.end <= |s| && (forall k: nat | p.start <= k < p.end :: IsWord(s[k]))
    && (p.end < |s| ==> !IsWord(s[p.end]))
  }

  ghost predicate GoodCmd(s: string, c: Cmd) {
    forall p | p in Spans(c) :: GoodSpan(s, p)
  }

  ghost predicate GoodRedirs(s: string, rs: seq<Redirection>) {
    forall k: nat | k < |rs| :: GoodSpan(s, rs[k].file)
  }

  lemma GoodToken(s: string, i: nat)
    requires i <= |s| && Syntax.GetToken(s, i).kind == 'a'
    ensures GoodSpan(s, Syntax.GetToken(s, i).span)
  {
  }

  lemma {:induction false} GoodWrap(s: string, c: Cmd, rs: seq<Redirection>)
    requires GoodCmd(s, c) && GoodRedirs(s, rs)
    ensures GoodCmd(s, Wrap(c, rs))
    decreases |rs|
  {
    if rs != [] {
      GoodWrap(s, c, rs[..|rs| - 1]);
    }
  }

  lemma {:induction false} RedirsGood(s: string, i: nat)
    requires i <= |s| && Redirs(s, i).Parsed?
    ensures GoodRedirs(s, Redirs(s, i).value)
    decreases |s| - i
  {
    if Peek(s, i, "<>") {
      var t := Syntax.GetToken(s, Skip(s, i));
      GoodToken(s, t.next);
      RedirsGood(s, Syntax.GetToken(s, t.next).next);
    }
  }

  lemma {:induction false} ArgsGood(s: string, i: nat, argc: nat)
    requires i <= |s| && Args(s, i, argc).Parsed?
    ensures GoodCmd(s, Exec(Args(s, i, argc).value.argv)) && GoodRedirs(s, Args(s, i, argc).value.redirs)
    decreases |s| - i
  {
    if !Peek(s, i, "|)&;") {
      var t := Syntax.GetToken(s, Skip(s, i));
      if t.kind == 'a' {
        GoodToken(s, Skip(s, i));
        RedirsGood(s, t.next);
        ArgsGood(s, Redirs(s, t.next).next, argc + 1);
      }
    }
  }

  lemma {:induction false} BacksGood(s: string, i: nat, c: Cmd)
    requires i <= |s| && GoodCmd(s, c)
    ensures GoodCmd(s, Backs(s, i, c).value)
    decreases |s| - i
  {
    if Peek(s, i, "&") {
      BacksGood(s, Syntax.GetToken(s, Skip(s, i)).next, Back(c));
    }
  }

  lemma {:induction false} LineGood(s: string, i: nat)
    requires i <= |s| && Line(s, i).Parsed?
    ensures GoodCmd(s, Line(s, i).value)
    decreases |s| - i, 3
  {
    var c := Pipeline(s, i);
    PipelineGood(s, i);
    BacksGood(s, c.next, c.value);
    var b := Backs(s, c.next, c.value);
    if Peek(s, b.next, ";") {
      LineGood(s, Syntax.GetToken(s, Skip(s, b.next)).next);
    }
  }

  lemma {:induction false} PipelineGood(s: string, i: nat)
    requires i <= |s| && Pipeline(s, i).Parsed?
    ensures GoodCmd(s, Pipeline(s, i).value)
    decreases |s| - i, 2
  {
    CommandGood(s, i);
    var n := Command(s, i).next;
    if Peek(s, n, "|") {
      PipelineGood(s, Syntax.GetToken(s, Skip(s, n)).next);
    }
  }

  lemma {:induction false} CommandGood(s: string, i: nat)
    requires i <= |s| && Command(s, i).Parsed?
    ensures GoodCmd(s, Command(s, i).value)
    decreases |s| - i, 1
  {
    if Peek(s, i, "(") {
      var j := Skip(s, i);
      var n := Syntax.GetToken(s, Skip(s, j)).next;
      LineGood(s, n);
      var m := Syntax.GetToken(s, Skip(s, Line(s, n).next)).next;
      RedirsGood(s, m);
      GoodWrap(s, Line(s, n).value, Redirs(s, m).value);
    } else {
      RedirsGood(s, Skip(s, i));
      var r := Redirs(s, Skip(s, i));
      ArgsGood(s, r.next, 0);
      var a := Args(s, r.next, 0).value;
      GoodWrap(s, Exec(a.argv), r.value + a.redirs);
    }
  }

  ghost predicate IsEnd(c: Cmd, k: int) {
    exists p :: p in Spans(c) && p.end == k
  }

  /** nulterminate: a NUL behind every word and file name, and nothing else changes. */
  method NulTerminate(cmd: Cmd, buf: array<char>)
    requires forall p | p in Spans(cmd) :: p.end < buf.Length
    modifies buf
    ensures forall k: nat | k < buf.Length :: buf[k] == if IsEnd(cmd, k) then '\0' else old(buf[k])
    decreases cmd
  {
    match cmd {
      case Exec(argv) =>
        for i := 0 to |argv|
          invariant forall k: nat | k < buf.Length ::
                      buf[k] == if exists j: nat :: j < i && argv[j].end == k then '\0' else old(buf[k])
        {
          assert argv[i] in Spans(cmd);
          buf[argv[i].end] := '\0';
        }
        forall k: nat | k < buf.Length ensures IsEnd(cmd, k) <==> exists j: nat :: j < |argv| && argv[j].end == k {
          if IsEnd(cmd, k) {
            var p :| p in Spans(cmd) && p.end == k;
            assert p in argv;
          }
          if j: nat :| j < |argv| && argv[j].end == k {
            assert argv[j] in Spans(cmd);
          }
        }
      case Redir(d, file, _, _) =>
        NulTerminate(d, buf);
        assert file in Spans(cmd);
        buf[file.end] := '\0';
      case Pipe(l, r) =>
        NulTerminate(l, buf);
        NulTerminate(r, buf);
      case List(l, r) =>
        NulTerminate(l, buf);
        NulTerminate(r, buf);
      case Back(d) =>
        NulTerminate(d, buf);
    }
  }

  /** The C string at q. */
  function CString(b: seq<char>, q: nat): string
    decreases |b| - q
  {
    if q < |b| && b[q] != '\0' then [b[q]] + CString(b, q + 1) else ""
  }

  lemma {:induction false} CStringIs(b: seq<char>, q: nat, e: nat)
    requires q <= e < |b| && b[e] == '\0' && forall k: nat | q <= k < e :: b[k] != '\0'
    ensures CString(b, q) == b[q..e]
    decreases e - q
  {
    if q < e {
      CStringIs(b, q + 1, e);
    }
  }

  /** Once nulterminate has run, every word and file name of the command reads, as a C string, exactly
      as the parser recorded it: no NUL lands inside another word. */
  lemma StringsAreWords(s: string, c: Cmd, b: seq<char>, p: Span)
    requires WholeLine(s) == Parsed(c, |s|) && '\0' !in s && |b| == |s| + 1 && p in Spans(c)
    requires forall k: nat | k <= |s| :: b[k] == if IsEnd(c, k) || k == |s| then '\0' else s[k]
    ensures CString(b, p.start) == Text(s, p) && Text(s, p) != ""
  {
    hide WholeLine, CString, Spans, IsWord;
    WholeGood(s, c);
    assert GoodSpan(s, p);
    assert IsEnd(c, p.end);
    forall k: nat | p.start <= k < p.end ensures b[k] == s[k] && s[k] != '\0' {
      NoEndInside(s, c, p, k);
    }
    CStringIs(b, p.start, p.end);
    assert b[p.start..p.end] == s[p.start..p.end];
  }

  lemma WholeGood(s: string, c: Cmd)
    requires WholeLine(s) == Parsed(c, |s|)
    ensures GoodCmd(s, c)
  {
    hide Line, GoodCmd;
    LineGood(s, 0);
  }

  /** No word ends inside another. */
  lemma NoEndInside(s: string, c: Cmd, p: Span, k: nat)
    requires GoodCmd(s, c) && p in Spans(c) && p.start <= k < p.end
    ensures !IsEnd(c, k)
  {
    hide IsWord, Spans;
    assert GoodSpan(s, p);
    forall q | q in Spans(c) ensures q.end != k {
      assert GoodSpan(s, q);
    }
  }
}
