/** What becomes of the redirections of a line: >> is recorded as >. */
module ShellRedirs {
  import opened ShellSyntax

  ghost predicate IsRedir(t: Tok) {
    t.Sym? && (t.c == '<' || t.c == '>' || t.c == '+')
  }

  // ---- the parser does not tell >> from > ----

  ghost function AsOutput(toks: seq<Tok>): (r: seq<Tok>)
    ensures |r| == |toks|
    ensures forall i {:trigger r[i]} :: 0 <= i < |r| ==> r[i] == if toks[i] == Sym('+') then Sym('>') else toks[i]
  {
    seq(|toks|, i requires 0 <= i < |toks| => if toks[i] == Sym('+') then Sym('>') else toks[i])
  }

  ghost function RestAsOutput<T>(p: Parse<T>): Parse<T> {
    if p.Ok? then Ok(p.value, AsOutput(p.rest)) else p
  }

  lemma OutputTail(toks: seq<Tok>, k: nat)
    requires k <= |toks|
    ensures AsOutput(toks)[k..] == AsOutput(toks[k..])
  {}

  lemma SameStart(toks: seq<Tok>, symbols: string)
    requires '+' in symbols <==> '>' in symbols
    ensures Starts(AsOutput(toks), symbols) == Starts(toks, symbols)
  {}

  lemma {:induction false} RedirsAsOutput(redirs: seq<To<string>>, toks: seq<Tok>)
    ensures PRedirs(redirs, AsOutput(toks)) == RestAsOutput(PRedirs(redirs, toks))
    decreases |toks|
  {
    SameStart(toks, "<>+");
    if Starts(toks, "<>+") && |toks| >= 2 && toks[1].Word? {
      OutputTail(toks, 2);
      RedirsAsOutput(redirs + [To(toks[1].w, toks[0].c != '<')], toks[2..]);
    }
  }

  lemma {:induction false} ArgsAsOutput(args: seq<string>, redirs: seq<To<string>>, toks: seq<Tok>)
    ensures PArgs(args, redirs, AsOutput(toks)) == RestAsOutput(PArgs(args, redirs, toks))
    decreases |toks|
  {
    SameStart(toks, "|)&;");
    if toks != [] && !Starts(toks, "|)&;") && toks[0].Word? && |args| + 1 < MAXARGS {
      OutputTail(toks, 1);
      RedirsAsOutput(redirs, toks[1..]);
      var p := PRedirs(redirs, toks[1..]);
      if p.Ok? {
        ArgsAsOutput(args + [toks[0].w], p.value, p.rest);
      }
    }
  }

  lemma {:induction false} ExecAsOutput(toks: seq<Tok>)
    ensures PExec(AsOutput(toks)) == RestAsOutput(PExec(toks))
    decreases |toks|, 0
  {
    SameStart(toks, "(");
    if Starts(toks, "(") {
      OutputTail(toks, 1);
      LineAsOutput(toks[1..]);
      var line := PLine(toks[1..]);
      if line.Ok? {
        SameStart(line.rest, ")");
        if Starts(line.rest, ")") {
          OutputTail(line.rest, 1);
          RedirsAsOutput([], line.rest[1..]);
        }
      }
    } else {
      RedirsAsOutput([], toks);
      var p := PRedirs([], toks);
      if p.Ok? {
        ArgsAsOutput([], p.value, p.rest);
      }
    }
  }

  lemma {:induction false} PipeAsOutput(toks: seq<Tok>)
    ensures PPipe(AsOutput(toks)) == RestAsOutput(PPipe(toks))
    decreases |toks|, 1
  {
    ExecAsOutput(toks);
    var left := PExec(toks);
    if left.Ok? {
      SameStart(left.rest, "|");
      if Starts(left.rest, "|") {
        OutputTail(left.rest, 1);
        PipeAsOutput(left.rest[1..]);
      }
    }
  }

  lemma {:induction false} BacksAsOutput(c: Cmd<string>, toks: seq<Tok>)
    ensures PBacks(c, AsOutput(toks)) == RestAsOutput(PBacks(c, toks))
    decreases |toks|
  {
    SameStart(toks, "&");
    if Starts(toks, "&") {
      OutputTail(toks, 1);
      BacksAsOutput(Back(c), toks[1..]);
    }
  }

  lemma {:induction false} LineAsOutput(toks: seq<Tok>)
    ensures PLine(AsOutput(toks)) == RestAsOutput(PLine(toks))
    decreases |toks|, 2
  {
    PipeAsOutput(toks);
    var pipe := PPipe(toks);
    if pipe.Ok? {
      BacksAsOutput(pipe.value, pipe.rest);
      var left := PBacked(toks);
      SameStart(left.rest, ";");
      if Starts(left.rest, ";") {
        OutputTail(left.rest, 1);
        LineAsOutput(left.rest[1..]);
      }
    }
  }

  /** Replacing every >> by > changes nothing: the same tree, or the same error. */
  lemma AppendIsOutput(toks: seq<Tok>)
    ensures PCmd(toks) == PCmd(AsOutput(toks))
  {
    LineAsOutput(toks);
    var line := PLine(toks);
    if line.Ok? {
      assert AsOutput(line.rest) == [] <==> line.rest == [];
    }
  }

  // ---- what the tree records ----

  /** The redirections a line asks for, in order, each by its symbol. */
  ghost function Asked(toks: seq<Tok>): seq<char> {
    if toks == [] then [] else (if IsRedir(toks[0]) then [toks[0].c] else []) + Asked(toks[1..])
  }

  ghost function Modes(redirs: seq<To<string>>): seq<char> {
    if redirs == [] then []
    else Modes(redirs[..|redirs| - 1]) + [if redirs[|redirs| - 1].output then '>' else '<']
  }

  /** The redirections a tree records, in the order of the line. */
  ghost function Recorded(c: Cmd<string>): seq<char> {
    match c
    case Exec(args) => []
    case Redir(cmd, _, output) => Recorded(cmd) + [if output then '>' else '<']
    case Pipe(left, right) => Recorded(left) + Recorded(right)
    case List(left, right) => Recorded(left) + Recorded(right)
    case Back(cmd) => Recorded(cmd)
  }

  lemma {:induction false} WrapRecords(c: Cmd<string>, redirs: seq<To<string>>)
    ensures Recorded(Wrap(c, redirs)) == Recorded(c) + Modes(redirs)
    decreases |redirs|
  {
    if redirs != [] {
      WrapRecords(Redir(c, redirs[0].file, redirs[0].output), redirs[1..]);
      ModesFirst(redirs);
    }
  }

  lemma {:induction false} ModesFirst(redirs: seq<To<string>>)
    requires redirs != []
    ensures Modes(redirs) == [if redirs[0].output then '>' else '<'] + Modes(redirs[1..])
    decreases |redirs|
  {
    var n := |redirs| - 1;
    if n > 0 {
      ModesFirst(redirs[..n]);
      assert redirs[..n][1..] == redirs[1..][..n - 1];
    }
  }

  /** What is asked for, with > for >>. */
  ghost function Plain(toks: seq<Tok>): seq<char> {
    Asked(AsOutput(toks))
  }

  lemma PlainFirst(toks: seq<Tok>)
    requires toks != []
    ensures Plain(toks) ==
            (if !IsRedir(toks[0]) then [] else [if toks[0].c == '<' then '<' else '>']) + Plain(toks[1..])
  {
    OutputTail(toks, 1);
  }

  lemma {:induction false} RedirsRecord(redirs: seq<To<string>>, toks: seq<Tok>)
    ensures var p := PRedirs(redirs, toks); p.Ok? ==> Modes(p.value) + Plain(p.rest) == Modes(redirs) + Plain(toks)
    decreases |toks|
  {
    if Starts(toks, "<>+") && |toks| >= 2 && toks[1].Word? {
      var more := redirs + [To(toks[1].w, toks[0].c != '<')];
      RedirsRecord(more, toks[2..]);
      PlainFirst(toks);
      PlainFirst(toks[1..]);
      assert toks[1..][1..] == toks[2..];
      assert more[..|redirs|] == redirs;
    }
  }

  lemma {:induction false} ArgsRecord(args: seq<string>, redirs: seq<To<string>>, toks: seq<Tok>)
    ensures var p := PArgs(args, redirs, toks); p.Ok? ==>
              Recorded(p.value) + Plain(p.rest) == Modes(redirs) + Plain(toks)
    decreases |toks|
  {
    if toks == [] || Starts(toks, "|)&;") {
      WrapRecords(Exec(args), redirs);
    } else if toks[0].Word? && |args| + 1 < MAXARGS {
      PlainFirst(toks);
      RedirsRecord(redirs, toks[1..]);
      var p := PRedirs(redirs, toks[1..]);
      if p.Ok? {
        ArgsRecord(args + [toks[0].w], p.value, p.rest);
      }
    }
  }

  lemma Regrouped(a: seq<char>, b: seq<char>, c: seq<char>)
    ensures a + b + c == a + (b + c)
  {}

  lemma SkipSymbol(toks: seq<Tok>, symbols: string)
    requires Starts(toks, symbols) && '<' !in symbols && '>' !in symbols && '+' !in symbols
    ensures Plain(toks[1..]) == Plain(toks)
  {
    PlainFirst(toks);
  }

  lemma {:induction false} ExecRecord(toks: seq<Tok>)
    ensures var p := PExec(toks); p.Ok? ==> Recorded(p.value) + Plain(p.rest) == Plain(toks)
    decreases |toks|, 0
  {
    if Starts(toks, "(") {
      SkipSymbol(toks, "(");
      LineRecord(toks[1..]);
      var line := PLine(toks[1..]);
      if line.Ok? && Starts(line.rest, ")") {
        SkipSymbol(line.rest, ")");
        RedirsRecord([], line.rest[1..]);
        var p := PRedirs([], line.rest[1..]);
        if p.Ok? {
          WrapRecords(line.value, p.value);
          Regrouped(Recorded(line.value), Modes(p.value), Plain(p.rest));
          assert Modes([]) + Plain(line.rest[1..]) == Plain(line.rest);
        }
      }
    } else {
      RedirsRecord([], toks);
      var p := PRedirs([], toks);
      if p.Ok? {
        ArgsRecord([], p.value, p.rest);
      }
    }
  }

  lemma {:induction false} PipeRecord(toks: seq<Tok>)
    ensures var p := PPipe(toks); p.Ok? ==> Recorded(p.value) + Plain(p.rest) == Plain(toks)
    decreases |toks|, 1
  {
    ExecRecord(toks);
    var left := PExec(toks);
    if left.Ok? && Starts(left.rest, "|") {
      SkipSymbol(left.rest, "|");
      PipeRecord(left.rest[1..]);
      var right := PPipe(left.rest[1..]);
      if right.Ok? {
        Regrouped(Recorded(left.value), Recorded(right.value), Plain(right.rest));
      }
    }
  }

  lemma {:induction false} BacksRecord(c: Cmd<string>, toks: seq<Tok>)
    ensures var p := PBacks(c, toks); Recorded(p.value) + Plain(p.rest) == Recorded(c) + Plain(toks)
    decreases |toks|
  {
    if Starts(toks, "&") {
      SkipSymbol(toks, "&");
      BacksRecord(Back(c), toks[1..]);
    }
  }

  lemma {:induction false} LineRecord(toks: seq<Tok>)
    ensures var p := PLine(toks); p.Ok? ==> Recorded(p.value) + Plain(p.rest) == Plain(toks)
    decreases |toks|, 2
  {
    PipeRecord(toks);
    var pipe := PPipe(toks);
    if pipe.Ok? {
      BacksRecord(pipe.value, pipe.rest);
      var left := PBacked(toks);
      if Starts(left.rest, ";") {
        SkipSymbol(left.rest, ";");
        LineRecord(left.rest[1..]);
        var right := PLine(left.rest[1..]);
        if right.Ok? {
          Regrouped(Recorded(left.value), Recorded(right.value), Plain(right.rest));
        }
      }
    }
  }

  lemma {:induction false} PlainIff(toks: seq<Tok>)
    ensures |Plain(toks)| == |Asked(toks)|
    ensures Plain(toks) == Asked(toks) <==> Sym('+') !in toks
    decreases |toks|
  {
    if toks != [] {
      PlainFirst(toks);
      PlainIff(toks[1..]);
      var tail := toks[1..];
      assert toks == [toks[0]] + tail;
      if IsRedir(toks[0]) {
        var x := if toks[0].c == '<' then '<' else '>';
        assert Plain(toks) == [x] + Plain(tail) && Asked(toks) == [toks[0].c] + Asked(tail);
        SameHeads(x, Plain(tail), toks[0].c, Asked(tail));
      } else {
        assert Plain(toks) == Plain(tail) && Asked(toks) == Asked(tail);
      }
    }
  }

  lemma SameHeads(x: char, s: seq<char>, y: char, t: seq<char>)
    ensures [x] + s == [y] + t <==> x == y && s == t
  {
    assert ([x] + s)[0] == x && ([y] + t)[0] == y && ([x] + s)[1..] == s && ([y] + t)[1..] == t;
  }

  /** The tree records the redirections the line asks for if and only if none of them is >>. */
  lemma RecordedIff(toks: seq<Tok>)
    requires PCmd(toks).Ok?
    ensures Recorded(PCmd(toks).value) == Asked(toks) <==> Sym('+') !in toks
  {
    LineRecord(toks);
    PlainIff(toks);
    assert Plain([]) == [];
  }

  /** `a > f` and `a >> f` are the same command. */
  lemma SameTree()
    ensures var c := Redir(Exec(["a"]), "f", true);
            && PCmd([Word("a"), Sym('>'), Word("f")]) == Ok(c, [])
            && PCmd([Word("a"), Sym('+'), Word("f")]) == Ok(c, [])
  {
    var c := Redir(Exec(["a"]), "f", true);
    RoundTrip(c);
    assert ShowLine(c) == [Word("a"), Sym('>'), Word("f")];
    assert AsOutput([Word("a"), Sym('+'), Word("f")]) == [Word("a"), Sym('>'), Word("f")];
    AppendIsOutput([Word("a"), Sym('+'), Word("f")]);
  }
}
