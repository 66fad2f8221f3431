/** Which command trees some line parses to. */
module ShellLines {
  import opened ShellSyntax
  import opened ShellParser

  /** The words of a line are not empty and made of letters. */
  lemma {:induction false} LexGood(buf: string, i: nat)
    requires i <= |buf| && IsText(buf)
    ensures GoodToks(Lex(buf, i))
    decreases |buf| - i
  {
    var j := Skip(buf, i);
    if j < |buf| {
      LexGood(buf, TokEnd(buf, j));
      WordGood(buf, j);
      GoodConcat([TokAt(buf, j)], Lex(buf, TokEnd(buf, j)));
    }
  }

  lemma WordGood(buf: string, j: nat)
    requires j < |buf| && !Blank(buf[j]) && buf[j] != '\0'
    ensures GoodTok(TokAt(buf, j))
  {
    LettersBefore(buf, j);
  }

  lemma {:induction false} LettersBefore(buf: string, j: nat)
    requires j <= |buf|
    ensures forall k :: j <= k < WordEnd(buf, j) ==> Letter(buf[k])
    decreases |buf| - j
  {
    if j < |buf| && Letter(buf[j]) {
      LettersBefore(buf, j + 1);
    }
  }

  // ---- the parser keeps the words as they are ----

  ghost predicate GoodTos(redirs: seq<To<string>>) {
    forall i {:trigger redirs[i]} :: 0 <= i < |redirs| ==> GoodTok(Word(redirs[i].file))
  }

  lemma GoodTail(toks: seq<Tok>, k: nat)
    requires GoodToks(toks) && k <= |toks|
    ensures GoodToks(toks[k..])
  {}

  lemma {:induction false} WrapGood(c: Cmd<string>, redirs: seq<To<string>>)
    requires GoodWords(c) && GoodTos(redirs)
    ensures GoodWords(Wrap(c, redirs))
    decreases |redirs|
  {
    if redirs != [] {
      WrapGood(Redir(c, redirs[0].file, redirs[0].output), redirs[1..]);
    }
  }

  lemma {:induction false} RedirsGood(redirs: seq<To<string>>, toks: seq<Tok>)
    requires GoodTos(redirs) && GoodToks(toks)
    ensures var p := PRedirs(redirs, toks); p.Ok? ==> GoodTos(p.value) && GoodToks(p.rest)
    decreases |toks|
  {
    if Starts(toks, "<>+") && |toks| >= 2 && toks[1].Word? {
      GoodTail(toks, 2);
      RedirsGood(redirs + [To(toks[1].w, toks[0].c != '<')], toks[2..]);
    }
  }

  lemma {:induction false} ArgsGood(args: seq<string>, redirs: seq<To<string>>, toks: seq<Tok>)
    requires GoodWords(Exec(args)) && GoodTos(redirs) && GoodToks(toks)
    ensures var p := PArgs(args, redirs, toks); p.Ok? ==> GoodWords(p.value) && GoodToks(p.rest)
    decreases |toks|
  {
    if toks == [] || Starts(toks, "|)&;") {
      WrapGood(Exec(args), redirs);
    } else if toks[0].Word? && |args| + 1 < MAXARGS {
      GoodTail(toks, 1);
      RedirsGood(redirs, toks[1..]);
      var p := PRedirs(redirs, toks[1..]);
      if p.Ok? {
        ArgsGood(args + [toks[0].w], p.value, p.rest);
      }
    }
  }

  lemma {:induction false} ExecGood(toks: seq<Tok>)
    requires GoodToks(toks)
    ensures var p := PExec(toks); p.Ok? ==> GoodWords(p.value) && GoodToks(p.rest)
    decreases |toks|, 0
  {
    if Starts(toks, "(") {
      GoodTail(toks, 1);
      LineGood(toks[1..]);
      var line := PLine(toks[1..]);
      if line.Ok? && Starts(line.rest, ")") {
        GoodTail(line.rest, 1);
        RedirsGood([], line.rest[1..]);
        var p := PRedirs([], line.rest[1..]);
        if p.Ok? {
          WrapGood(line.value, p.value);
        }
      }
    } else {
      RedirsGood([], toks);
      var p := PRedirs([], toks);
      if p.Ok? {
        ArgsGood([], p.value, p.rest);
      }
    }
  }

  lemma {:induction false} PipeGood(toks: seq<Tok>)
    requires GoodToks(toks)
    ensures var p := PPipe(toks); p.Ok? ==> GoodWords(p.value) && GoodToks(p.rest)
    decreases |toks|, 1
  {
    ExecGood(toks);
    var left := PExec(toks);
    if left.Ok? && Starts(left.rest, "|") {
      GoodTail(left.rest, 1);
      PipeGood(left.rest[1..]);
    }
  }

  lemma {:induction false} BacksGood(c: Cmd<string>, toks: seq<Tok>)
    requires GoodWords(c) && GoodToks(toks)
    ensures var p := PBacks(c, toks); GoodWords(p.value) && GoodToks(p.rest)
    decreases |toks|
  {
    if Starts(toks, "&") {
      GoodTail(toks, 1);
      BacksGood(Back(c), toks[1..]);
    }
  }

  lemma {:induction false} LineGood(toks: seq<Tok>)
    requires GoodToks(toks)
    ensures var p := PLine(toks); p.Ok? ==> GoodWords(p.value) && GoodToks(p.rest)
    decreases |toks|, 2
  {
    PipeGood(toks);
    var pipe := PPipe(toks);
    if pipe.Ok? {
      BacksGood(pipe.value, pipe.rest);
      var left := PBacked(toks);
      if Starts(left.rest, ";") {
        GoodTail(left.rest, 1);
        LineGood(left.rest[1..]);
      }
    }
  }

  ghost predicate ParsesTo(line: string, c: Cmd<string>) {
    IsText(line) && PCmd(Lex(line, 0)) == Ok(c, [])
  }

  /** The trees some line parses to are exactly those with at most nine words in each simple command, all of
  which can be written. */
  lemma AcceptedIff(c: Cmd<string>)
    ensures Accepted(c) && GoodWords(c) <==> exists line :: ParsesTo(line, c)
  {
    if Accepted(c) && GoodWords(c) {
      RoundTrip(c);
      ShownLine(c);
      RenderLex(ShowLine(c));
      assert ParsesTo(Render(ShowLine(c)), c);
    }
    if line :| ParsesTo(line, c) {
      LexGood(line, 0);
      LineGood(Lex(line, 0));
      LineAccepted(Lex(line, 0));
    }
  }
}
