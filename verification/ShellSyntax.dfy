/** The shell's command language: command trees, their grammar on tokens, and a printer whose output parses back to
the same tree. */
module ShellSyntax {

  const MAXARGS := 10

  /** A word, or a symbol: one of < | > & ; ( ) and, for >>, +. */
  datatype Tok = Word(w: string) | Sym(c: char)

  /** A command tree; W is how words are represented. */
  datatype Cmd<W> =
    | Exec(args: seq<W>)
    | Redir(cmd: Cmd<W>, file: W, output: bool)
    | Pipe(left: Cmd<W>, right: Cmd<W>)
    | List(left: Cmd<W>, right: Cmd<W>)
    | Back(cmd: Cmd<W>)

  datatype To<W> = To(file: W, output: bool)

  /** cmd with the redirections around it, the first one innermost. */
  function Wrap<W>(cmd: Cmd<W>, redirs: seq<To<W>>): Cmd<W>
    decreases |redirs|
  {
    if redirs == [] then cmd else Wrap(Redir(cmd, redirs[0].file, redirs[0].output), redirs[1..])
  }

  /** Why the shell gives up on a line. */
  datatype Error = MissingFile | MissingParen | Syntax | TooManyArgs | Leftovers

  datatype Parse<T> = Ok(value: T, rest: seq<Tok>) | Err(error: Error)

  predicate Starts(toks: seq<Tok>, symbols: string) {
    toks != [] && toks[0].Sym? && toks[0].c in symbols
  }

  // ---- the grammar ----

  ghost function PRedirs(redirs: seq<To<string>>, toks: seq<Tok>): (r: Parse<seq<To<string>>>)
    ensures r.Ok? ==> |r.rest| <= |toks|
    decreases |toks|
  {
    if !Starts(toks, "<>+") then Ok(redirs, toks)
    else if |toks| < 2 || !toks[1].Word? then Err(MissingFile)
    else PRedirs(redirs + [To(toks[1].w, toks[0].c != '<')], toks[2..])
  }

  /** The words of a simple command, with redirections anywhere between them. */
  ghost function PArgs(args: seq<string>, redirs: seq<To<string>>, toks: seq<Tok>): (r: Parse<Cmd<string>>)
    ensures r.Ok? ==> |r.rest| <= |toks|
    decreases |toks|
  {
    if toks == [] || Starts(toks, "|)&;") then Ok(Wrap(Exec(args), redirs), toks)
    else if !toks[0].Word? then Err(Syntax)
    else if |args| + 1 >= MAXARGS then Err(TooManyArgs)
    else
      var p := PRedirs(redirs, toks[1..]);
      if p.Err? then Err(p.error) else PArgs(args + [toks[0].w], p.value, p.rest)
  }

  ghost function PBlock(toks: seq<Tok>): (r: Parse<Cmd<string>>)
    requires toks != []
    ensures r.Ok? ==> |r.rest| <= |toks|
    decreases |toks|, 0
  {
    var line := PLine(toks[1..]);
    if line.Err? then Err(line.error)
    else if !Starts(line.rest, ")") then Err(MissingParen)
    else
      var p := PRedirs([], line.rest[1..]);
      if p.Err? then Err(p.error) else Ok(Wrap(line.value, p.value), p.rest)
  }

  ghost function PExec(toks: seq<Tok>): (r: Parse<Cmd<string>>)
    ensures r.Ok? ==> |r.rest| <= |toks|
    decreases |toks|, 1
  {
    if Starts(toks, "(") then PBlock(toks)
    else
      var p := PRedirs([], toks);
      if p.Err? then Err(p.error) else PArgs([], p.value, p.rest)
  }

  ghost function PPipe(toks: seq<Tok>): (r: Parse<Cmd<string>>)
    ensures r.Ok? ==> |r.rest| <= |toks|
    decreases |toks|, 2
  {
    var left := PExec(toks);
    if left.Err? || !Starts(left.rest, "|") then left
    else
      var right := PPipe(left.rest[1..]);
      if right.Err? then right else Ok(Pipe(left.value, right.value), right.rest)
  }

  ghost function PBacks(cmd: Cmd<string>, toks: seq<Tok>): (r: Parse<Cmd<string>>)
    ensures r.Ok? && |r.rest| <= |toks| && !Starts(r.rest, "&")
    decreases |toks|
  {
    if Starts(toks, "&") then PBacks(Back(cmd), toks[1..]) else Ok(cmd, toks)
  }

  ghost function PBacked(toks: seq<Tok>): (r: Parse<Cmd<string>>)
    ensures r.Ok? ==> |r.rest| <= |toks|
    decreases |toks|, 3
  {
    var pipe := PPipe(toks);
    if pipe.Err? then pipe else PBacks(pipe.value, pipe.rest)
  }

  ghost function PLine(toks: seq<Tok>): (r: Parse<Cmd<string>>)
    ensures r.Ok? ==> |r.rest| <= |toks|
    decreases |toks|, 4
  {
    var left := PBacked(toks);
    if left.Err? || !Starts(left.rest, ";") then left
    else
      var right := PLine(left.rest[1..]);
      if right.Err? then right else Ok(List(left.value, right.value), right.rest)
  }

  ghost function PCmd(toks: seq<Tok>): Parse<Cmd<string>> {
    var line := PLine(toks);
    if line.Ok? && line.rest != [] then Err(Leftovers) else line
  }

  // ---- the printer ----

  function Words(args: seq<string>): (r: seq<Tok>)
    ensures |r| == |args| && forall i {:trigger r[i]} :: 0 <= i < |r| ==> r[i] == Word(args[i])
  {
    seq(|args|, i requires 0 <= i < |args| => Word(args[i]))
  }

  function Redirect(file: string, output: bool): seq<Tok> {
    [Sym(if output then '>' else '<'), Word(file)]
  }

  /** Parentheses go only around what could not stand in its place without: a line inside a pipe, a pipe
  or a line under a redirection, a list in the background or in front of a semicolon. */
  function ShowExec(c: Cmd<string>): seq<Tok>
    decreases c, 0
  {
    match c
    case Exec(args) => Words(args)
    case Redir(cmd, file, output) => ShowExec(cmd) + Redirect(file, output)
    case Pipe(left, right) => [Sym('(')] + ShowExec(left) + [Sym('|')] + ShowPipe(right) + [Sym(')')]
    case Back(cmd) => [Sym('(')] + ShowBack(cmd) + [Sym('&'), Sym(')')]
    case List(left, right) => [Sym('(')] + ShowBack(left) + [Sym(';')] + ShowLine(right) + [Sym(')')]
  }

  function ShowPipe(c: Cmd<string>): seq<Tok>
    decreases c, 1
  {
    if c.Pipe? then ShowExec(c.left) + [Sym('|')] + ShowPipe(c.right) else ShowExec(c)
  }

  function ShowBack(c: Cmd<string>): seq<Tok>
    decreases c, 2
  {
    if c.Back? then ShowBack(c.cmd) + [Sym('&')] else ShowPipe(c)
  }

  function ShowLine(c: Cmd<string>): seq<Tok>
    decreases c, 3
  {
    if c.List? then ShowBack(c.left) + [Sym(';')] + ShowLine(c.right) else ShowBack(c)
  }

  // ---- the round trip ----

  /** Every simple command has at most nine words, as many as the shell accepts. */
  ghost predicate Accepted<W>(c: Cmd<W>) {
    match c
    case Exec(args) => |args| < MAXARGS
    case Redir(cmd, _, _) => Accepted(cmd)
    case Pipe(left, right) => Accepted(left) && Accepted(right)
    case List(left, right) => Accepted(left) && Accepted(right)
    case Back(cmd) => Accepted(cmd)
  }

  ghost function Redirects(redirs: seq<To<string>>): seq<Tok> {
    if redirs == [] then [] else Redirect(redirs[0].file, redirs[0].output) + Redirects(redirs[1..])
  }

  /** What may follow a simple command. */
  ghost predicate Stops(rest: seq<Tok>, symbols: string) {
    rest == [] || Starts(rest, symbols)
  }

  lemma Regroup(a: seq<Tok>, b: seq<Tok>, c: seq<Tok>, d: seq<Tok>)
    ensures a + b + c + d == a + (b + (c + d))
    ensures a + b + c + d == a + (b + c + d)
  {}

  lemma First(t: Tok, toks: seq<Tok>)
    ensures ([t] + toks)[0] == t && ([t] + toks)[1..] == toks
  {}

  lemma {:induction false} RedirectsParse(before: seq<To<string>>, redirs: seq<To<string>>, rest: seq<Tok>)
    requires !Starts(rest, "<>+")
    ensures PRedirs(before, Redirects(redirs) + rest) == Ok(before + redirs, rest)
    decreases |redirs|
  {
    var toks := Redirects(redirs) + rest;
    if redirs == [] {
      assert toks == rest && before + redirs == before;
    } else {
      var r := redirs[0];
      assert toks == [Sym(if r.output then '>' else '<'), Word(r.file)] + (Redirects(redirs[1..]) + rest);
      assert toks[2..] == Redirects(redirs[1..]) + rest;
      RedirectsParse(before + [r], redirs[1..], rest);
      assert before + [r] + redirs[1..] == before + redirs;
    }
  }

  lemma WordStep(before: seq<string>, w: string, tail: seq<Tok>, redirs: seq<To<string>>, rest: seq<Tok>)
    requires |before| + 1 < MAXARGS && PRedirs([], tail) == Ok(redirs, rest)
    ensures PArgs(before, [], [Word(w)] + tail) == PArgs(before + [w], redirs, rest)
  {
    var toks := [Word(w)] + tail;
    assert toks[0] == Word(w) && toks[1..] == tail;
  }

  lemma ArgsStop(args: seq<string>, redirs: seq<To<string>>, rest: seq<Tok>)
    requires Stops(rest, "|)&;")
    ensures PArgs(args, redirs, rest) == Ok(Wrap(Exec(args), redirs), rest)
  {}

  lemma ExecIsArgs(toks: seq<Tok>, redirs: seq<To<string>>, rest: seq<Tok>)
    requires !Starts(toks, "(") && PRedirs([], toks) == Ok(redirs, rest)
    ensures PExec(toks) == PArgs([], redirs, rest)
  {}

  lemma NoRedirects(redirs: seq<To<string>>, toks: seq<Tok>)
    requires toks == [] || toks[0].Word?
    ensures PRedirs(redirs, toks) == Ok(redirs, toks)
  {}

  lemma LastWord(before: seq<string>, w: string, redirs: seq<To<string>>, rest: seq<Tok>)
    requires |before| + 1 < MAXARGS && Stops(rest, "|)&;")
    ensures PArgs(before, [], [Word(w)] + (Redirects(redirs) + rest)) == Ok(Wrap(Exec(before + [w]), redirs), rest)
  {
    RedirectsParse([], redirs, rest);
    assert [] + redirs == redirs;
    WordStep(before, w, Redirects(redirs) + rest, redirs, rest);
    ArgsStop(before + [w], redirs, rest);
  }

  lemma MoreWords(before: seq<string>, w: string, tail: seq<Tok>)
    requires |before| + 1 < MAXARGS && tail != [] && tail[0].Word?
    ensures PArgs(before, [], [Word(w)] + tail) == PArgs(before + [w], [], tail)
  {
    NoRedirects([], tail);
    WordStep(before, w, tail, [], tail);
  }

  lemma WordsShape(args: seq<string>, redirs: seq<Tok>, rest: seq<Tok>)
    requires args != []
    ensures Words(args) + redirs + rest == [Word(args[0])] + (Words(args[1..]) + redirs + rest)
    ensures |args| == 1 ==> Words(args[1..]) + redirs + rest == redirs + rest
    ensures |args| > 1 ==> Words(args[1..]) + redirs + rest != [] && (Words(args[1..]) + redirs + rest)[0].Word?
  {
    assert Words(args) == [Word(args[0])] + Words(args[1..]);
    Regroup([Word(args[0])], Words(args[1..]), redirs, rest);
  }

  /** The words args, then the redirections. */
  lemma {:induction false} WordsParse(before: seq<string>, args: seq<string>, redirs: seq<To<string>>, rest: seq<Tok>)
    requires args != [] && |before| + |args| < MAXARGS && Stops(rest, "|)&;")
    ensures PArgs(before, [], Words(args) + Redirects(redirs) + rest) == Ok(Wrap(Exec(before + args), redirs), rest)
    decreases |args|
  {
    WordsShape(args, Redirects(redirs), rest);
    if |args| == 1 {
      LastWord(before, args[0], redirs, rest);
      assert before + [args[0]] == before + args;
    } else {
      MoreWords(before, args[0], Words(args[1..]) + Redirects(redirs) + rest);
      WordsParse(before + [args[0]], args[1..], redirs, rest);
      assert before + [args[0]] + args[1..] == before + args;
    }
  }

  lemma BareRedirects(redirs: seq<To<string>>, rest: seq<Tok>)
    requires Stops(rest, "|)&;")
    ensures PExec(Redirects(redirs) + rest) == Ok(Wrap(Exec([]), redirs), rest)
  {
    RedirectsParse([], redirs, rest);
    assert [] + redirs == redirs;
    assert redirs != [] ==> (Redirects(redirs) + rest)[0] == Redirect(redirs[0].file, redirs[0].output)[0];
    assert redirs == [] ==> Redirects(redirs) + rest == rest;
    ExecIsArgs(Redirects(redirs) + rest, redirs, rest);
    ArgsStop([], redirs, rest);
  }

  lemma WordsFirst(args: seq<string>, redirs: seq<To<string>>, rest: seq<Tok>)
    requires args != []
    ensures var toks := Words(args) + Redirects(redirs) + rest; toks != [] && toks[0] == Word(args[0])
  {}

  lemma SimpleParses(args: seq<string>, redirs: seq<To<string>>, rest: seq<Tok>)
    requires |args| < MAXARGS && Stops(rest, "|)&;")
    ensures PExec(Words(args) + Redirects(redirs) + rest) == Ok(Wrap(Exec(args), redirs), rest)
  {
    if args == [] {
      BareRedirects(redirs, rest);
      assert Words(args) + Redirects(redirs) == Redirects(redirs);
    } else {
      var toks := Words(args) + Redirects(redirs) + rest;
      WordsFirst(args, redirs, rest);
      NoRedirects([], toks);
      ExecIsArgs(toks, [], toks);
      WordsParse([], args, redirs, rest);
      assert [] + args == args;
    }
  }

  lemma ParenShows(c: Cmd<string>)
    requires c.Pipe? || c.List? || c.Back?
    ensures ShowExec(c) == [Sym('(')] + ShowLine(c) + [Sym(')')]
  {
    match c
    case Pipe(left, right) =>
      assert ShowLine(c) == ShowBack(c) == ShowPipe(c) == ShowExec(left) + [Sym('|')] + ShowPipe(right);
    case Back(cmd) => assert ShowLine(c) == ShowBack(c) == ShowBack(cmd) + [Sym('&')];
    case List(left, right) => assert ShowLine(c) == ShowBack(left) + [Sym(';')] + ShowLine(right);
  }

  lemma BlockStep(c: Cmd<string>, line: seq<Tok>, after: seq<Tok>, redirs: seq<To<string>>, rest: seq<Tok>)
    requires PLine(line) == Ok(c, after) && Starts(after, ")") && PRedirs([], after[1..]) == Ok(redirs, rest)
    ensures PExec([Sym('(')] + line) == Ok(Wrap(c, redirs), rest)
  {
    First(Sym('('), line);
  }

  lemma BlockShape(toks: seq<Tok>, redirs: seq<Tok>, rest: seq<Tok>)
    ensures [Sym('(')] + toks + [Sym(')')] + redirs + rest == [Sym('(')] + (toks + ([Sym(')')] + redirs + rest))
    ensures ([Sym(')')] + redirs + rest)[1..] == redirs + rest && Starts([Sym(')')] + redirs + rest, ")")
  {}

  lemma BlockParses(c: Cmd<string>, toks: seq<Tok>, redirs: seq<To<string>>, rest: seq<Tok>)
    requires PLine(toks + ([Sym(')')] + Redirects(redirs) + rest)) == Ok(c, [Sym(')')] + Redirects(redirs) + rest)
    requires Stops(rest, "|)&;")
    ensures PExec([Sym('(')] + toks + [Sym(')')] + Redirects(redirs) + rest) == Ok(Wrap(c, redirs), rest)
  {
    RedirectsParse([], redirs, rest);
    assert [] + redirs == redirs;
    BlockShape(toks, Redirects(redirs), rest);
    BlockStep(c, toks + ([Sym(')')] + Redirects(redirs) + rest), [Sym(')')] + Redirects(redirs) + rest, redirs, rest);
  }

  lemma PipeStep(left: Cmd<string>, right: Cmd<string>, rest: seq<Tok>)
    requires var after := [Sym('|')] + (ShowPipe(right) + rest); PExec(ShowExec(left) + after) == Ok(left, after)
    requires PPipe(ShowPipe(right) + rest) == Ok(right, rest)
    ensures PPipe(ShowPipe(Pipe(left, right)) + rest) == Ok(Pipe(left, right), rest)
  {
    var after := [Sym('|')] + (ShowPipe(right) + rest);
    Regroup(ShowExec(left), [Sym('|')], ShowPipe(right), rest);
    assert after[1..] == ShowPipe(right) + rest;
  }

  lemma BackStep(cmd: Cmd<string>, rest: seq<Tok>)
    requires PBacked(ShowBack(cmd) + ([Sym('&')] + rest)) == PBacks(cmd, [Sym('&')] + rest)
    ensures PBacked(ShowBack(Back(cmd)) + rest) == PBacks(Back(cmd), rest)
  {
    assert ShowBack(Back(cmd)) + rest == ShowBack(cmd) + ([Sym('&')] + rest);
    assert ([Sym('&')] + rest)[1..] == rest;
  }

  lemma ListStep(left: Cmd<string>, right: Cmd<string>, rest: seq<Tok>)
    requires var after := [Sym(';')] + (ShowLine(right) + rest); PBacked(ShowBack(left) + after) == Ok(left, after)
    requires PLine(ShowLine(right) + rest) == Ok(right, rest)
    ensures PLine(ShowLine(List(left, right)) + rest) == Ok(List(left, right), rest)
  {
    var after := [Sym(';')] + (ShowLine(right) + rest);
    Regroup(ShowBack(left), [Sym(';')], ShowLine(right), rest);
    assert after[1..] == ShowLine(right) + rest;
  }

  lemma PlainExec(c: Cmd<string>, rest: seq<Tok>)
    requires PExec(ShowExec(c) + Redirects([]) + rest) == Ok(Wrap(c, []), rest)
    ensures PExec(ShowExec(c) + rest) == Ok(c, rest)
  {
    var shown := ShowExec(c);
    assert shown + Redirects([]) == shown;
  }

  /** A pipe, a list or a background command as a line of its own, or between parentheses. */
  lemma {:induction false} CompoundRoundTrip(c: Cmd<string>, rest: seq<Tok>)
    requires Accepted(c) && Stops(rest, ")") && (c.Pipe? || c.List? || c.Back?)
    ensures PLine(ShowLine(c) + rest) == Ok(c, rest)
    decreases c, 0
  {
    match c
    case Pipe(left, right) =>
      var after := [Sym('|')] + (ShowPipe(right) + rest);
      ExecRoundTrip(left, [], after);
      PlainExec(left, after);
      PipeRoundTrip(right, rest);
      PipeStep(left, right, rest);
    case Back(cmd) =>
      BackRoundTrip(cmd, [Sym('&')] + rest);
      BackStep(cmd, rest);
    case List(left, right) =>
      BackRoundTrip(left, [Sym(';')] + (ShowLine(right) + rest));
      LineRoundTrip(right, rest);
      ListStep(left, right, rest);
  }

  /** A command shown as an operand of a pipe, together with redirections that follow. */
  lemma {:induction false} ExecRoundTrip(c: Cmd<string>, redirs: seq<To<string>>, rest: seq<Tok>)
    requires Accepted(c) && Stops(rest, "|)&;")
    ensures PExec(ShowExec(c) + Redirects(redirs) + rest) == Ok(Wrap(c, redirs), rest)
    decreases c, 1
  {
    match c
    case Exec(args) => SimpleParses(args, redirs, rest);
    case Redir(cmd, file, output) =>
      var redirs' := [To(file, output)] + redirs;
      assert redirs'[1..] == redirs;
      ExecRoundTrip(cmd, redirs', rest);
      assert ShowExec(c) + Redirects(redirs) + rest == ShowExec(cmd) + Redirects(redirs') + rest;
    case _ =>
      CompoundRoundTrip(c, [Sym(')')] + Redirects(redirs) + rest);
      ParenShows(c);
      BlockParses(c, ShowLine(c), redirs, rest);
  }

  lemma {:induction false} PipeRoundTrip(c: Cmd<string>, rest: seq<Tok>)
    requires Accepted(c) && Stops(rest, ")&;")
    ensures PPipe(ShowPipe(c) + rest) == Ok(c, rest)
    decreases c, 2
  {
    if c.Pipe? {
      var after := [Sym('|')] + (ShowPipe(c.right) + rest);
      ExecRoundTrip(c.left, [], after);
      PlainExec(c.left, after);
      PipeRoundTrip(c.right, rest);
      PipeStep(c.left, c.right, rest);
    } else {
      ExecRoundTrip(c, [], rest);
      PlainExec(c, rest);
    }
  }

  lemma {:induction false} BackRoundTrip(c: Cmd<string>, rest: seq<Tok>)
    requires Accepted(c) && Stops(rest, ")&;")
    ensures PBacked(ShowBack(c) + rest) == PBacks(c, rest)
    decreases c, 3
  {
    if c.Back? {
      BackRoundTrip(c.cmd, [Sym('&')] + rest);
      BackStep(c.cmd, rest);
    } else {
      PipeRoundTrip(c, rest);
    }
  }

  lemma {:induction false} LineRoundTrip(c: Cmd<string>, rest: seq<Tok>)
    requires Accepted(c) && Stops(rest, ")")
    ensures PLine(ShowLine(c) + rest) == Ok(c, rest)
    decreases c, 4
  {
    if c.List? {
      BackRoundTrip(c.left, [Sym(';')] + (ShowLine(c.right) + rest));
      LineRoundTrip(c.right, rest);
      ListStep(c.left, c.right, rest);
    } else {
      BackRoundTrip(c, rest);
    }
  }

  /** Every command tree that the shell accepts is what its printed form parses to. */
  lemma RoundTrip(c: Cmd<string>)
    requires Accepted(c)
    ensures PCmd(ShowLine(c)) == Ok(c, [])
  {
    LineRoundTrip(c, []);
    assert ShowLine(c) + [] == ShowLine(c);
  }

  // ---- what the shell accepts ----

  lemma {:induction false} WrapAccepted<W>(c: Cmd<W>, redirs: seq<To<W>>)
    requires Accepted(c)
    ensures Accepted(Wrap(c, redirs))
    decreases |redirs|
  {
    if redirs != [] {
      WrapAccepted(Redir(c, redirs[0].file, redirs[0].output), redirs[1..]);
    }
  }

  lemma {:induction false} ArgsAccepted(args: seq<string>, redirs: seq<To<string>>, toks: seq<Tok>)
    requires |args| < MAXARGS
    ensures var r := PArgs(args, redirs, toks); r.Ok? ==> Accepted(r.value)
    decreases |toks|
  {
    if toks == [] || Starts(toks, "|)&;") {
      WrapAccepted(Exec(args), redirs);
    } else if toks[0].Word? && |args| + 1 < MAXARGS {
      var p := PRedirs(redirs, toks[1..]);
      if p.Ok? {
        ArgsAccepted(args + [toks[0].w], p.value, p.rest);
      }
    }
  }

  lemma {:induction false} BacksAccepted(c: Cmd<string>, toks: seq<Tok>)
    requires Accepted(c)
    ensures Accepted(PBacks(c, toks).value)
    decreases |toks|
  {
    if Starts(toks, "&") {
      BacksAccepted(Back(c), toks[1..]);
    }
  }

  lemma {:induction false} ExecAccepted(toks: seq<Tok>)
    ensures var r := PExec(toks); r.Ok? ==> Accepted(r.value)
    decreases |toks|, 0
  {
    if Starts(toks, "(") {
      LineAccepted(toks[1..]);
      var line := PLine(toks[1..]);
      if line.Ok? && Starts(line.rest, ")") {
        var p := PRedirs([], line.rest[1..]);
        if p.Ok? {
          WrapAccepted(line.value, p.value);
        }
      }
    } else {
      var p := PRedirs([], toks);
      if p.Ok? {
        ArgsAccepted([], p.value, p.rest);
      }
    }
  }

  lemma {:induction false} PipeAccepted(toks: seq<Tok>)
    ensures var r := PPipe(toks); r.Ok? ==> Accepted(r.value)
    decreases |toks|, 1
  {
    ExecAccepted(toks);
    var left := PExec(toks);
    if left.Ok? && Starts(left.rest, "|") {
      PipeAccepted(left.rest[1..]);
    }
  }

  lemma {:induction false} LineAccepted(toks: seq<Tok>)
    ensures var r := PLine(toks); r.Ok? ==> Accepted(r.value)
    decreases |toks|, 2
  {
    PipeAccepted(toks);
    var pipe := PPipe(toks);
    if pipe.Ok? {
      BacksAccepted(pipe.value, pipe.rest);
      var left := PBacked(toks);
      if Starts(left.rest, ";") {
        LineAccepted(left.rest[1..]);
      }
    }
  }
}
