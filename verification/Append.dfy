/** The shell cannot append: lines that differ only in having >> for > parse to the same command. The
    parser sees a line only through its tokens, and it treats the two alike. */
module Append {
  import opened Syntax
  import opened RoundTrip
  import opened Shell

  predicate Twin(k: char, k': char) {
    k == k' || ((k == '>' || k == '+') && (k' == '>' || k' == '+'))
  }

  /** From i and i' on the two lines have the same tokens, but for > and >>. */
  ghost predicate Match(s: string, i: nat, s': string, i': nat)
    decreases |s| - i
  {
    && i <= |s| && i' <= |s'|
    && var t, t' := Syntax.GetToken(s, i), Syntax.GetToken(s', i');
       && Twin(t.kind, t'.kind) && (t.kind == 'a' ==> Text(s, t.span) == Text(s', t'.span))
       && (t.kind == '\0' || Match(s, t.next, s', t'.next))
  }

  ghost predicate SameSpans(s: string, a: seq<Span>, s': string, a': seq<Span>) {
    |a| == |a'| && forall k: nat | k < |a| :: Text(s, a[k]) == Text(s', a'[k])
  }

  /** The two commands differ only in where their words stand. */
  ghost predicate SameCmd(s: string, c: Cmd, s': string, c': Cmd) {
    match c
    case Exec(argv) => c'.Exec? && SameSpans(s, argv, s', c'.argv)
    case Redir(d, file, mode, fd) =>
      c'.Redir? && SameCmd(s, d, s', c'.cmd) && Text(s, file) == Text(s', c'.file) && mode == c'.mode && fd == c'.fd
    case Pipe(l, r) => c'.Pipe? && SameCmd(s, l, s', c'.left) && SameCmd(s, r, s', c'.right)
    case List(l, r) => c'.List? && SameCmd(s, l, s', c'.left) && SameCmd(s, r, s', c'.right)
    case Back(d) => c'.Back? && SameCmd(s, d, s', c'.cmd)
  }

  ghost predicate SameRedirs(s: string, rs: seq<Redirection>, s': string, rs': seq<Redirection>) {
    |rs| == |rs'| && forall k: nat | k < |rs| ::
      Text(s, rs[k].file) == Text(s', rs'[k].file) && rs[k].mode == rs'[k].mode && rs[k].fd == rs'[k].fd
  }

  /** Where two results leave off, the rest of the lines match again. */
  ghost predicate Together<T>(s: string, r: Result<T>, s': string, r': Result<T>) {
    (r.Parsed? <==> r'.Parsed?) && (r.Parsed? ==> Match(s, r.next, s', r'.next))
  }

  predicate Symbols(toks: string) {
    forall k: nat | k < |toks| :: IsSymbol(toks[k])
  }

  /** peek looks at the kind of the next token. */
  lemma PeekIs(s: string, i: nat, toks: string)
    requires i <= |s| && Symbols(toks)
    ensures var k := Syntax.GetToken(s, i).kind;
            Peek(s, i, toks) <==> k != '\0' && k != 'a' && (if k == '+' then '>' else k) in toks
    ensures Syntax.GetToken(s, Skip(s, i)) == Syntax.GetToken(s, i)
  {
    SkipTwice(s, i);
  }

  lemma {:induction false} SkipTwice(s: string, i: nat)
    requires i <= |s|
    ensures Skip(s, Skip(s, i)) == Skip(s, i)
    decreases |s| - i
  {
    if i < |s| && IsWhite(s[i]) {
      SkipTwice(s, i + 1);
    }
  }

  lemma PeekMatch(s: string, i: nat, s': string, i': nat, toks: string)
    requires Match(s, i, s', i') && Symbols(toks)
    ensures Peek(s, i, toks) <==> Peek(s', i', toks)
    ensures Match(s, Skip(s, i), s', Skip(s', i'))
    ensures Peek(s, i, toks) ==>
              var n, n' := Syntax.GetToken(s, Skip(s, i)).next, Syntax.GetToken(s', Skip(s', i')).next;
              Match(s, n, s', n') && i < n
  {
    PeekIs(s, i, toks);
    PeekIs(s', i', toks);
  }

  /** What matching lines have in common at the next token. */
  lemma TokenMatch(s: string, i: nat, s': string, i': nat)
    requires Match(s, i, s', i')
    ensures i <= |s| && i' <= |s'|
    ensures var t, t' := Syntax.GetToken(s, i), Syntax.GetToken(s', i');
            && Twin(t.kind, t'.kind) && (t.kind == 'a' ==> Text(s, t.span) == Text(s', t'.span))
            && Match(s, t.next, s', t'.next) && i <= t.next && (t.kind != '\0' ==> i < t.next)
  {
    if Syntax.GetToken(s, i).kind == '\0' {
      EndMatch(s, i, s', i');
    }
  }

  lemma EndMatch(s: string, i: nat, s': string, i': nat)
    requires i <= |s| && i' <= |s'| && Syntax.GetToken(s, i).kind == '\0' == Syntax.GetToken(s', i').kind
    ensures Match(s, Syntax.GetToken(s, i).next, s', Syntax.GetToken(s', i').next)
  {
  }

  lemma {:induction false} RedirsMatch(s: string, i: nat, s': string, i': nat)
    requires Match(s, i, s', i')
    ensures Together(s, Redirs(s, i), s', Redirs(s', i'))
    ensures Redirs(s, i).Parsed? ==> SameRedirs(s, Redirs(s, i).value, s', Redirs(s', i').value)
    decreases |s| - i
  {
    hide Redirs, Syntax.GetToken, Match, Skip, Text, Peek;
    TokenMatch(s, i, s', i');
    PeekMatch(s, i, s', i', "<>");
    RedirsSkip(s, i);
    RedirsSkip(s', i');
    var j, j' := Skip(s, i), Skip(s', i');
    if Peek(s, i, "<>") {
      PeekSkip(s, i, "<>");
      PeekSkip(s', i', "<>");
      RedirsMore(s, j);
      RedirsMore(s', j');
      var t, t' := Syntax.GetToken(s, j), Syntax.GetToken(s', j');
      var f, f' := Syntax.GetToken(s, t.next), Syntax.GetToken(s', t'.next);
      TokenMatch(s, j, s', j');
      TokenMatch(s, t.next, s', t'.next);
      if f.kind == 'a' {
        RedirsMatch(s, f.next, s', f'.next);
      }
    } else {
      RedirsEnd(s, i);
      RedirsEnd(s', i');
    }
  }

  lemma PeekSkip(s: string, i: nat, toks: string)
    requires i <= |s|
    ensures Peek(s, Skip(s, i), toks) <==> Peek(s, i, toks)
  {
    SkipTwice(s, i);
  }

  lemma {:induction false} ArgsMatch(s: string, i: nat, s': string, i': nat, argc: nat)
    requires Match(s, i, s', i')
    ensures Together(s, Args(s, i, argc), s', Args(s', i', argc))
    ensures Args(s, i, argc).Parsed? ==>
              && SameSpans(s, Args(s, i, argc).value.argv, s', Args(s', i', argc).value.argv)
              && SameRedirs(s, Args(s, i, argc).value.redirs, s', Args(s', i', argc).value.redirs)
    decreases |s| - i
  {
    hide Args, Redirs, Syntax.GetToken, Match, Skip, Text, Peek;
    TokenMatch(s, i, s', i');
    PeekMatch(s, i, s', i', "|)&;");
    ArgsSkip(s, i, argc);
    ArgsSkip(s', i', argc);
    var j, j' := Skip(s, i), Skip(s', i');
    if Peek(s, i, "|)&;") {
      ArgsEnd(s, i, argc);
      ArgsEnd(s', i', argc);
    } else {
      PeekSkip(s, i, "|)&;");
      PeekSkip(s', i', "|)&;");
      ArgsMore(s, j, argc);
      ArgsMore(s', j', argc);
      var t, t' := Syntax.GetToken(s, j), Syntax.GetToken(s', j');
      TokenMatch(s, j, s', j');
      if t.kind == 'a' && argc + 1 < MAXARGS {
        RedirsMatch(s, t.next, s', t'.next);
        var r, r' := Redirs(s, t.next), Redirs(s', t'.next);
        if r.Parsed? {
          ArgsMatch(s, r.next, s', r'.next, argc + 1);
        }
      }
    }
  }

  lemma {:induction false} BacksMatch(s: string, i: nat, s': string, i': nat, c: Cmd, c': Cmd)
    requires Match(s, i, s', i') && SameCmd(s, c, s', c')
    ensures Together(s, Backs(s, i, c), s', Backs(s', i', c'))
    ensures SameCmd(s, Backs(s, i, c).value, s', Backs(s', i', c').value)
    decreases |s| - i
  {
    hide Backs, Syntax.GetToken, Match, Skip, Text, Peek;
    TokenMatch(s, i, s', i');
    PeekMatch(s, i, s', i', "&");
    BacksSkip(s, i, c);
    BacksSkip(s', i', c');
    var j, j' := Skip(s, i), Skip(s', i');
    if Peek(s, i, "&") {
      PeekSkip(s, i, "&");
      PeekSkip(s', i', "&");
      BacksMore(s, j, c);
      BacksMore(s', j', c');
      TokenMatch(s, j, s', j');
      BacksMatch(s, Syntax.GetToken(s, j).next, s', Syntax.GetToken(s', j').next, Back(c), Back(c'));
    } else {
      BacksEnd(s, i, c);
      BacksEnd(s', i', c');
    }
  }

  lemma {:induction false} WrapMatch(s: string, c: Cmd, rs: seq<Redirection>, s': string, c': Cmd,
                                     rs': seq<Redirection>)
    requires SameCmd(s, c, s', c') && SameRedirs(s, rs, s', rs')
    ensures SameCmd(s, Wrap(c, rs), s', Wrap(c', rs'))
    decreases |rs|
  {
    hide Text;
    if rs != [] {
      WrapMatch(s, c, rs[..|rs| - 1], s', c', rs'[..|rs'| - 1]);
    }
  }

  ghost predicate Alike(s: string, r: Result<Cmd>, s': string, r': Result<Cmd>) {
    Together(s, r, s', r') && (r.Parsed? ==> SameCmd(s, r.value, s', r'.value))
  }

  lemma {:induction false} LineMatch(s: string, i: nat, s': string, i': nat)
    requires Match(s, i, s', i')
    ensures i <= |s| && i' <= |s'| && Alike(s, Line(s, i), s', Line(s', i'))
    decreases |s| - i, 3
  {
    hide Line, Pipeline, Backs, Syntax.GetToken, Match, Skip, Peek, Text;
    TokenMatch(s, i, s', i');
    PipelineMatch(s, i, s', i');
    LineCases(s, i);
    LineCases(s', i');
    var c, c' := Pipeline(s, i), Pipeline(s', i');
    if c.Parsed? {
      BacksMatch(s, c.next, s', c'.next, c.value, c'.value);
      var b, b' := Backs(s, c.next, c.value), Backs(s', c'.next, c'.value);
      PeekMatch(s, b.next, s', b'.next, ";");
      if Peek(s, b.next, ";") {
        LineMatch(s, Syntax.GetToken(s, Skip(s, b.next)).next, s', Syntax.GetToken(s', Skip(s', b'.next)).next);
      }
    }
  }

  lemma {:induction false} PipelineMatch(s: string, i: nat, s': string, i': nat)
    requires Match(s, i, s', i')
    ensures i <= |s| && i' <= |s'| && Alike(s, Pipeline(s, i), s', Pipeline(s', i'))
    decreases |s| - i, 2
  {
    hide Pipeline, Command, Syntax.GetToken, Match, Skip, Peek, Text;
    TokenMatch(s, i, s', i');
    CommandMatch(s, i, s', i');
    PipelineCases(s, i);
    PipelineCases(s', i');
    var c, c' := Command(s, i), Command(s', i');
    if c.Parsed? {
      PeekMatch(s, c.next, s', c'.next, "|");
      if Peek(s, c.next, "|") {
        PipelineMatch(s, Syntax.GetToken(s, Skip(s, c.next)).next, s', Syntax.GetToken(s', Skip(s', c'.next)).next);
      }
    }
  }

  lemma {:induction false} CommandMatch(s: string, i: nat, s': string, i': nat)
    requires Match(s, i, s', i')
    ensures i <= |s| && i' <= |s'| && Alike(s, Command(s, i), s', Command(s', i'))
    decreases |s| - i, 1
  {
    hide Line, Command, Args, Redirs, Syntax.GetToken, Match, Skip, Peek, Text, Wrap;
    TokenMatch(s, i, s', i');
    PeekMatch(s, i, s', i', "(");
    CommandCases(s, i);
    CommandCases(s', i');
    var j, j' := Skip(s, i), Skip(s', i');
    if Peek(s, i, "(") {
      var n, n' := Syntax.GetToken(s, j).next, Syntax.GetToken(s', j').next;
      LineMatch(s, n, s', n');
      var l, l' := Line(s, n), Line(s', n');
      if l.Parsed? {
        PeekMatch(s, l.next, s', l'.next, ")");
        if Peek(s, l.next, ")") {
          var m, m' := Syntax.GetToken(s, Skip(s, l.next)).next, Syntax.GetToken(s', Skip(s', l'.next)).next;
          RedirsMatch(s, m, s', m');
          if Redirs(s, m).Parsed? {
            WrapMatch(s, l.value, Redirs(s, m).value, s', l'.value, Redirs(s', m').value);
          }
        }
      }
    } else {
      RedirsMatch(s, j, s', j');
      var r, r' := Redirs(s, j), Redirs(s', j');
      if r.Parsed? {
        ArgsMatch(s, r.next, s', r'.next, 0);
        var a, a' := Args(s, r.next, 0), Args(s', r'.next, 0);
        if a.Parsed? {
          WrapMatch(s, Exec(a.value.argv), r.value + a.value.redirs, s', Exec(a'.value.argv),
                    r'.value + a'.value.redirs);
        }
      }
    }
  }

  lemma PipelineCases(s: string, i: nat)
    requires i <= |s|
    ensures match Command(s, i)
            case Panic => Pipeline(s, i).Panic?
            case Parsed(c, n) =>
              if !Peek(s, n, "|") then Pipeline(s, i) == Parsed(c, Skip(s, n)) else
              match Pipeline(s, Syntax.GetToken(s, Skip(s, n)).next)
              case Panic => Pipeline(s, i).Panic?
              case Parsed(rest, next) => Pipeline(s, i) == Parsed(Pipe(c, rest), next)
  {
  }

  lemma CommandCases(s: string, i: nat)
    requires i <= |s|
    ensures Peek(s, i, "(") ==>
              match Line(s, Syntax.GetToken(s, Skip(s, i)).next)
              case Panic => Command(s, i).Panic?
              case Parsed(c, n) =>
                if !Peek(s, n, ")") then Command(s, i).Panic? else
                match Redirs(s, Syntax.GetToken(s, Skip(s, n)).next)
                case Panic => Command(s, i).Panic?
                case Parsed(rs, next) => Command(s, i) == Parsed(Wrap(c, rs), next)
    ensures !Peek(s, i, "(") ==>
              match Redirs(s, Skip(s, i))
              case Panic => Command(s, i).Panic?
              case Parsed(rs, n) =>
                match Args(s, n, 0)
                case Panic => Command(s, i).Panic?
                case Parsed(a, next) => Command(s, i) == Parsed(Wrap(Exec(a.argv), rs + a.redirs), next)
  {
    hide Line, Args, Redirs, Wrap, Syntax.GetToken;
    SkipTwice(s, i);
    if Peek(s, i, "(") {
      PeekSkip(s, i, "(");
      assert Command(s, i) == Block(s, Skip(s, i));
    }
  }

  /** Lines with the same tokens but for > and >> both panic, or parse to commands that differ only in
      where their words stand. */
  lemma TwinLines(s: string, s': string)
    requires Match(s, 0, s', 0)
    ensures WholeLine(s).Parsed? <==> WholeLine(s').Parsed?
    ensures WholeLine(s).Parsed? ==> SameCmd(s, WholeLine(s).value, s', WholeLine(s').value)
  {
    hide Line, SameCmd;
    LineMatch(s, 0, s', 0);
    var r, r' := Line(s, 0), Line(s', 0);
    if r.Parsed? {
      TokenMatch(s, r.next, s', r'.next);
    }
  }

  // ----- writing >> for > -----

  /** From i on, s' is s moved by d. */
  ghost predicate Moved(s: string, i: nat, s': string, d: int) {
    i <= |s| && 0 <= i + d && |s'| == |s| + d && forall k: nat | i <= k < |s| :: s[k] == s'[k + d]
  }

  lemma {:induction false} MovedSkip(s: string, i: nat, j: nat, s': string, d: int)
    requires Moved(s, i, s', d) && i <= j <= |s|
    ensures Skip(s', j + d) == Skip(s, j) + d
    decreases |s| - j
  {
    if j < |s| && IsWhite(s[j]) {
      MovedSkip(s, i, j + 1, s', d);
    }
  }

  lemma {:induction false} MovedWord(s: string, i: nat, j: nat, s': string, d: int)
    requires Moved(s, i, s', d) && i <= j <= |s|
    ensures WordEnd(s', j + d) == WordEnd(s, j) + d
    decreases |s| - j
  {
    if j < |s| && IsWord(s[j]) {
      MovedWord(s, i, j + 1, s', d);
    }
  }

  lemma MovedSpan(s: string, i: nat, j: nat, s': string, d: int)
    requires Moved(s, i, s', d) && i <= j <= |s|
    ensures var t, t' := Syntax.GetToken(s, j), Syntax.GetToken(s', j + d);
            && t'.kind == t.kind && t'.next == t.next + d
            && t'.span == Span(t.span.start + d, t.span.end + d)
  {
    hide Skip, WordEnd;
    MovedSkip(s, i, j, s', d);
    var q := Skip(s, j);
    if q < |s| {
      MovedWord(s, i, q, s', d);
      MovedSkip(s, i, Syntax.GetToken(s, j).span.end, s', d);
    }
  }

  lemma MovedToken(s: string, i: nat, j: nat, s': string, d: int)
    requires Moved(s, i, s', d) && i <= j <= |s|
    ensures var t, t' := Syntax.GetToken(s, j), Syntax.GetToken(s', j + d);
            t'.kind == t.kind && t'.next == t.next + d && Text(s, t.span) == Text(s', t'.span)
  {
    hide Syntax.GetToken;
    MovedSpan(s, i, j, s', d);
    var t := Syntax.GetToken(s, j);
    assert s[t.span.start..t.span.end] == s'[t.span.start + d..t.span.end + d];
  }

  lemma {:induction false} MovedMatch(s: string, i: nat, j: nat, s': string, d: int)
    requires Moved(s, i, s', d) && i <= j <= |s|
    ensures Match(s, j, s', j + d)
    decreases |s| - j
  {
    hide Syntax.GetToken, Skip, Text;
    MovedToken(s, i, j, s', d);
    var t := Syntax.GetToken(s, j);
    if t.kind != '\0' {
      MovedMatch(s, i, t.next, s', d);
    }
  }

  /** s has >> where s' has a single > at n, and is otherwise the same. */
  ghost predicate Doubled(s: string, n: nat, s': string) {
    && n < |s'| == |s| - 1 && (forall k: nat | k < n :: s[k] == s'[k]) && (n > 0 ==> s[n - 1] != '>')
    && Moved(s, n + 2, s', -1) && s[n] == s[n + 1] == s'[n] == '>' && (n + 1 < |s'| ==> s'[n + 1] != '>')
  }

  lemma {:induction false} BeforeSkip(s: string, n: nat, s': string, i: nat)
    requires Doubled(s, n, s') && i <= n
    ensures Skip(s', i) == Skip(s, i) <= n
    decreases n - i
  {
    if i < n {
      if IsWhite(s[i]) {
        BeforeSkip(s, n, s', i + 1);
      }
    }
  }

  lemma {:induction false} BeforeWord(s: string, n: nat, s': string, i: nat)
    requires Doubled(s, n, s') && i <= n
    ensures WordEnd(s', i) == WordEnd(s, i) <= n
    decreases n - i
  {
    if i < n {
      if IsWord(s[i]) {
        BeforeWord(s, n, s', i + 1);
      }
    }
  }

  /** Before the >, the two lines have the same token in the same place. */
  lemma BeforeToken(s: string, n: nat, s': string, i: nat)
    requires Doubled(s, n, s') && i <= n && Skip(s, i) < n
    ensures var t := Syntax.GetToken(s, i); Syntax.GetToken(s', i) == t && t.kind != '\0' && t.span.end <= t.next <= n
  {
    hide Skip, WordEnd, Moved;
    BeforeSkip(s, n, s', i);
    var q := Skip(s, i);
    BeforeWord(s, n, s', q);
    BeforeSkip(s, n, s', Syntax.GetToken(s, i).span.end);
  }

  lemma BeforeText(s: string, n: nat, s': string, p: Span)
    requires Doubled(s, n, s') && p.start <= p.end <= n
    ensures Text(s, p) == Text(s', p)
  {
    hide Moved;
    assert s[p.start..p.end] == s'[p.start..p.end];
  }

  lemma {:induction false} DoubledMatch(s: string, n: nat, s': string, i: nat)
    requires Doubled(s, n, s') && i <= n
    ensures Match(s, i, s', i)
    decreases n - i
  {
    hide Skip, Text, Moved, Syntax.GetToken;
    BeforeSkip(s, n, s', i);
    if Skip(s, i) < n {
      BeforeToken(s, n, s', i);
      BeforeText(s, n, s', Syntax.GetToken(s, i).span);
      DoubledMatch(s, n, s', Syntax.GetToken(s, i).next);
    } else {
      TwinTokens(s, n, s', i);
      MovedSkip(s, n + 2, n + 2, s', -1);
      MovedMatch(s, n + 2, Skip(s, n + 2), s', -1);
    }
  }

  lemma TwinTokens(s: string, n: nat, s': string, i: nat)
    requires Doubled(s, n, s') && i <= n == Skip(s, i) == Skip(s', i)
    ensures Syntax.GetToken(s, i) == Token('+', Span(n, n + 2), Skip(s, n + 2))
    ensures Syntax.GetToken(s', i) == Token('>', Span(n, n + 1), Skip(s', n + 1))
  {
    hide Skip, Moved;
  }

  /** Writing >> instead of > changes nothing: both lines panic, or both parse to the same command. */
  lemma AppendIsOverwrite(p: string, q: string)
    requires (p == "" || p[|p| - 1] != '>') && (q == "" || q[0] != '>')
    ensures var s, s' := p + ">>" + q, p + ">" + q;
            && (WholeLine(s).Parsed? <==> WholeLine(s').Parsed?)
            && (WholeLine(s).Parsed? ==> SameCmd(s, WholeLine(s).value, s', WholeLine(s').value))
  {
    hide WholeLine, SameCmd, Match;
    var s, s' := p + ">>" + q, p + ">" + q;
    assert Doubled(s, |p|, s');
    DoubledMatch(s, |p|, s', 0);
    TwinLines(s, s');
  }
}
