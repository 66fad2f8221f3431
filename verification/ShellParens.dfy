/** The printed form of a command has the fewest parentheses of all lines that parse to it. */
module ShellParens {
  import opened ShellSyntax

  /** How many opening parentheses there are. */
  ghost function Parens(toks: seq<Tok>): nat {
    if toks == [] then 0 else (if toks[0] == Sym('(') then 1 else 0) + Parens(toks[1..])
  }

  lemma {:induction false} ParensConcat(a: seq<Tok>, b: seq<Tok>)
    ensures Parens(a + b) == Parens(a) + Parens(b)
    decreases |a|
  {
    if a == [] {
      assert a + b == b;
    } else {
      ParensConcat(a[1..], b);
      assert (a + b)[1..] == a[1..] + b;
    }
  }

  lemma {:induction false} NoParens(toks: seq<Tok>)
    requires forall i :: 0 <= i < |toks| ==> toks[i] != Sym('(')
    ensures Parens(toks) == 0
    decreases |toks|
  {
    if toks != [] {
      NoParens(toks[1..]);
    }
  }

  /** How many of them a command needs: as operand of a pipe, as a pipe, in the background, as a line. */
  ghost function Need(c: Cmd<string>, level: nat): nat
    requires level <= 3
    decreases c, level
  {
    match c
    case Exec(args) => 0
    case Redir(cmd, _, _) => Need(cmd, 0)
    case Pipe(left, right) => Need(left, 0) + Need(right, 1) + if level == 0 then 1 else 0
    case Back(cmd) => Need(cmd, 2) + if level <= 1 then 1 else 0
    case List(left, right) => Need(left, 2) + Need(right, 3) + if level <= 2 then 1 else 0
  }

  lemma Around(a: seq<Tok>, t: Tok, b: seq<Tok>)
    requires t != Sym('(')
    ensures Parens(a + [t] + b) == Parens(a) + Parens(b)
  {
    ParensConcat(a + [t], b);
    ParensConcat(a, [t]);
    assert Parens([t]) == 0;
  }

  lemma Within(a: seq<Tok>, b: seq<Tok>)
    requires Parens(b) == 0
    ensures Parens([Sym('(')] + a + b) == 1 + Parens(a)
  {
    ParensConcat([Sym('(')] + a, b);
    ParensConcat([Sym('(')], a);
    assert Parens([Sym('(')]) == 1;
  }

  lemma Behind(a: seq<Tok>, b: seq<Tok>)
    requires Parens(b) == 0
    ensures Parens(a + b) == Parens(a)
  {
    ParensConcat(a, b);
  }

  /** The printer uses exactly as many. */
  lemma {:induction false} ShowNeeds(c: Cmd<string>)
    ensures Parens(ShowExec(c)) == Need(c, 0) && Parens(ShowPipe(c)) == Need(c, 1)
    ensures Parens(ShowBack(c)) == Need(c, 2) && Parens(ShowLine(c)) == Need(c, 3)
    decreases c
  {
    match c
    case Exec(args) =>
      NoParens(Words(args));
    case Redir(cmd, file, output) =>
      ShowNeeds(cmd);
      NoParens(Redirect(file, output));
      Behind(ShowExec(cmd), Redirect(file, output));
    case Pipe(left, right) =>
      ShowNeeds(left);
      ShowNeeds(right);
      PipeNeeds(left, right);
    case Back(cmd) =>
      ShowNeeds(cmd);
      Behind(ShowBack(cmd), [Sym('&')]);
      Within(ShowBack(cmd), [Sym('&'), Sym(')')]);
    case List(left, right) =>
      ShowNeeds(left);
      ShowNeeds(right);
      ListNeeds(left, right);
  }

  lemma Enclosed(a: seq<Tok>, t: Tok, b: seq<Tok>)
    requires t != Sym('(')
    ensures Parens(a + [t] + b) == Parens(a) + Parens(b)
    ensures Parens([Sym('(')] + a + [t] + b + [Sym(')')]) == 1 + Parens(a) + Parens(b)
  {
    Around(a, t, b);
    Within(a + [t] + b, [Sym(')')]);
    assert [Sym('(')] + a + [t] + b + [Sym(')')] == [Sym('(')] + (a + [t] + b) + [Sym(')')];
  }

  lemma PipeNeeds(left: Cmd<string>, right: Cmd<string>)
    ensures Parens(ShowPipe(Pipe(left, right))) == Parens(ShowExec(left)) + Parens(ShowPipe(right))
    ensures Parens(ShowExec(Pipe(left, right))) == 1 + Parens(ShowExec(left)) + Parens(ShowPipe(right))
  {
    Enclosed(ShowExec(left), Sym('|'), ShowPipe(right));
  }

  lemma ListNeeds(left: Cmd<string>, right: Cmd<string>)
    ensures Parens(ShowLine(List(left, right))) == Parens(ShowBack(left)) + Parens(ShowLine(right))
    ensures Parens(ShowExec(List(left, right))) == 1 + Parens(ShowBack(left)) + Parens(ShowLine(right))
  {
    Enclosed(ShowBack(left), Sym(';'), ShowLine(right));
  }

  /** A looser place needs no more, and one pair is always enough. */
  lemma Looser(c: Cmd<string>)
    ensures Need(c, 3) <= Need(c, 2) <= Need(c, 1) <= Need(c, 0) <= Need(c, 3) + 1
  {}

  lemma {:induction false} WrapNeeds(c: Cmd<string>, redirs: seq<To<string>>)
    ensures Need(Wrap(c, redirs), 0) <= Need(c, 0)
    decreases |redirs|
  {
    if redirs != [] {
      WrapNeeds(Redir(c, redirs[0].file, redirs[0].output), redirs[1..]);
    }
  }

  // ---- every line that parses has as many ----

  lemma {:induction false} RedirsUse(redirs: seq<To<string>>, toks: seq<Tok>)
    ensures var p := PRedirs(redirs, toks); p.Ok? ==> Parens(p.rest) <= Parens(toks)
    decreases |toks|
  {
    if Starts(toks, "<>+") && |toks| >= 2 && toks[1].Word? {
      RedirsUse(redirs + [To(toks[1].w, toks[0].c != '<')], toks[2..]);
      assert toks[1..][1..] == toks[2..];
    }
  }

  lemma {:induction false} ArgsUse(args: seq<string>, redirs: seq<To<string>>, toks: seq<Tok>)
    ensures var p := PArgs(args, redirs, toks); p.Ok? ==> Parens(p.rest) <= Parens(toks) && Need(p.value, 0) == 0
    decreases |toks|
  {
    if toks == [] || Starts(toks, "|)&;") {
      WrapNeeds(Exec(args), redirs);
    } else if toks[0].Word? && |args| + 1 < MAXARGS {
      RedirsUse(redirs, toks[1..]);
      var p := PRedirs(redirs, toks[1..]);
      if p.Ok? {
        ArgsUse(args + [toks[0].w], p.value, p.rest);
      }
    }
  }

  lemma {:induction false} ExecUses(toks: seq<Tok>)
    ensures var p := PExec(toks); p.Ok? ==> Parens(toks) >= Need(p.value, 0) + Parens(p.rest)
    decreases |toks|, 0
  {
    if Starts(toks, "(") {
      LineUses(toks[1..]);
      var line := PLine(toks[1..]);
      if line.Ok? && Starts(line.rest, ")") {
        RedirsUse([], line.rest[1..]);
        var p := PRedirs([], line.rest[1..]);
        if p.Ok? {
          WrapNeeds(line.value, p.value);
          Looser(line.value);
        }
      }
    } else {
      RedirsUse([], toks);
      var p := PRedirs([], toks);
      if p.Ok? {
        ArgsUse([], p.value, p.rest);
      }
    }
  }

  lemma {:induction false} PipeUses(toks: seq<Tok>)
    ensures var p := PPipe(toks); p.Ok? ==> Parens(toks) >= Need(p.value, 1) + Parens(p.rest)
    decreases |toks|, 1
  {
    ExecUses(toks);
    var left := PExec(toks);
    if left.Ok? {
      Looser(left.value);
      if Starts(left.rest, "|") {
        PipeUses(left.rest[1..]);
      }
    }
  }

  lemma {:induction false} BacksUse(c: Cmd<string>, toks: seq<Tok>)
    ensures var p := PBacks(c, toks); Need(p.value, 2) + Parens(p.rest) <= Need(c, 2) + Parens(toks)
    decreases |toks|
  {
    if Starts(toks, "&") {
      BacksUse(Back(c), toks[1..]);
    }
  }

  lemma {:induction false} LineUses(toks: seq<Tok>)
    ensures var p := PLine(toks); p.Ok? ==> Parens(toks) >= Need(p.value, 3) + Parens(p.rest)
    decreases |toks|, 2
  {
    PipeUses(toks);
    var pipe := PPipe(toks);
    if pipe.Ok? {
      Looser(pipe.value);
      BacksUse(pipe.value, pipe.rest);
      var left := PBacked(toks);
      Looser(left.value);
      if Starts(left.rest, ";") {
        LineUses(left.rest[1..]);
      }
    }
  }

  /** No line that parses to c has fewer parentheses than the printed form of c, which parses to c. */
  lemma FewestParens(c: Cmd<string>, toks: seq<Tok>)
    requires PCmd(toks) == Ok(c, [])
    ensures Parens(toks) >= Parens(ShowLine(c)) && PCmd(ShowLine(c)) == Ok(c, [])
  {
    LineUses(toks);
    ShowNeeds(c);
    LineAccepted(toks);
    RoundTrip(c);
  }
}
