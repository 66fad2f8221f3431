/** sh.c: the shell's parser, on the characters of the line.  It keeps words as pointers into the line; nulterminate
then ends each of them with a NUL. */
module ShellParser {
  import opened ShellSyntax

  /** strchr(whitespace, c) and strchr(symbols, c); neither finds a NUL. */
  predicate Blank(c: char) { c == ' ' || c == '\t' || c == '\r' || c == '\n' || c == '\U{0B}' }
  predicate Symbol(c: char) { c == '<' || c == '|' || c == '>' || c == '&' || c == ';' || c == '(' || c == ')' }
  predicate Letter(c: char) { !Blank(c) && !Symbol(c) && c != '\0' }

  // ---- tokens of a line ----

  ghost function Skip(buf: string, i: nat): (j: nat)
    requires i <= |buf|
    ensures i <= j <= |buf| && (j < |buf| ==> !Blank(buf[j]))
    decreases |buf| - i
  {
    if i < |buf| && Blank(buf[i]) then Skip(buf, i + 1) else i
  }

  ghost function WordEnd(buf: string, i: nat): (j: nat)
    requires i <= |buf|
    ensures i <= j <= |buf| && (j < |buf| ==> !Letter(buf[j])) && (i < |buf| && Letter(buf[i]) ==> i < j)
    decreases |buf| - i
  {
    if i < |buf| && Letter(buf[i]) then WordEnd(buf, i + 1) else i
  }

  /** Where the token that starts at j ends. */
  ghost function TokEnd(buf: string, j: nat): (e: nat)
    requires j < |buf| && !Blank(buf[j]) && buf[j] != '\0'
    ensures j < e <= |buf|
  {
    if buf[j] == '>' && j + 1 < |buf| && buf[j + 1] == '>' then j + 2
    else if Symbol(buf[j]) then j + 1
    else WordEnd(buf, j)
  }

  ghost function TokAt(buf: string, j: nat): Tok
    requires j < |buf| && !Blank(buf[j]) && buf[j] != '\0'
  {
    if buf[j] == '>' && j + 1 < |buf| && buf[j + 1] == '>' then Sym('+')
    else if Symbol(buf[j]) then Sym(buf[j])
    else Word(buf[j..WordEnd(buf, j)])
  }

  /** A C string. */
  ghost predicate IsText(buf: string) {
    forall i :: 0 <= i < |buf| ==> buf[i] != '\0'
  }

  ghost function Lex(buf: string, i: nat): seq<Tok>
    requires i <= |buf| && IsText(buf)
    decreases |buf| - i
  {
    var j := Skip(buf, i);
    if j == |buf| then [] else [TokAt(buf, j)] + Lex(buf, TokEnd(buf, j))
  }

  lemma LexSkip(buf: string, i: nat)
    requires i <= |buf| && IsText(buf)
    ensures Lex(buf, Skip(buf, i)) == Lex(buf, i)
  {
    var j := Skip(buf, i);
    assert Skip(buf, j) == j;
  }

  // ---- words as pointers ----

  datatype Span = Span(q: nat, eq: nat)

  /** A maximal run of letters. */
  ghost predicate IsWord(buf: string, w: Span) {
    && w.q < w.eq <= |buf| && (forall k :: w.q <= k < w.eq ==> Letter(buf[k])) && (w.eq < |buf| ==> !Letter(buf[w.eq]))
  }

  ghost function Text(buf: string, w: Span): string {
    if w.q <= w.eq <= |buf| then buf[w.q..w.eq] else ""
  }

  ghost predicate AllWords(buf: string, c: Cmd<Span>) {
    match c
    case Exec(args) => forall i {:trigger args[i]} :: 0 <= i < |args| ==> IsWord(buf, args[i])
    case Redir(cmd, file, _) => AllWords(buf, cmd) && IsWord(buf, file)
    case Pipe(left, right) => AllWords(buf, left) && AllWords(buf, right)
    case List(left, right) => AllWords(buf, left) && AllWords(buf, right)
    case Back(cmd) => AllWords(buf, cmd)
  }

  ghost function Texts(buf: string, args: seq<Span>): (r: seq<string>)
    ensures |r| == |args| && forall i {:trigger r[i]} :: 0 <= i < |r| ==> r[i] == Text(buf, args[i])
  {
    seq(|args|, i requires 0 <= i < |args| => Text(buf, args[i]))
  }

  /** The tree with words as strings. */
  ghost function Spelled(buf: string, c: Cmd<Span>): Cmd<string> {
    match c
    case Exec(args) => Exec(Texts(buf, args))
    case Redir(cmd, file, output) => Redir(Spelled(buf, cmd), Text(buf, file), output)
    case Pipe(left, right) => Pipe(Spelled(buf, left), Spelled(buf, right))
    case List(left, right) => List(Spelled(buf, left), Spelled(buf, right))
    case Back(cmd) => Back(Spelled(buf, cmd))
  }

  ghost function SpelledTos(buf: string, redirs: seq<To<Span>>): (r: seq<To<string>>)
    ensures |r| == |redirs|
    ensures forall i {:trigger r[i]} :: 0 <= i < |r| ==> r[i] == To(Text(buf, redirs[i].file), redirs[i].output)
  {
    seq(|redirs|, i requires 0 <= i < |redirs| => To(Text(buf, redirs[i].file), redirs[i].output))
  }

  ghost predicate AllTos(buf: string, redirs: seq<To<Span>>) {
    forall i {:trigger redirs[i]} :: 0 <= i < |redirs| ==> IsWord(buf, redirs[i].file)
  }

  lemma {:induction false} SpelledWrap(buf: string, c: Cmd<Span>, redirs: seq<To<Span>>)
    requires AllWords(buf, c) && AllTos(buf, redirs)
    ensures AllWords(buf, Wrap(c, redirs))
    ensures Spelled(buf, Wrap(c, redirs)) == Wrap(Spelled(buf, c), SpelledTos(buf, redirs))
    decreases |redirs|
  {
    if redirs != [] {
      SpelledWrap(buf, Redir(c, redirs[0].file, redirs[0].output), redirs[1..]);
      assert SpelledTos(buf, redirs)[1..] == SpelledTos(buf, redirs[1..]);
    }
  }

  // ---- the parser ----

  datatype Res<T> = Got(v: T) | Bad(e: Error)

  /** The parser's result for a command is that of the grammar, and it stops at the same token. */
  ghost predicate Agrees(buf: string, p: Parse<Cmd<string>>, r: Res<Cmd<Span>>, s: nat)
    requires IsText(buf)
  {
    match p
    case Ok(c, rest) => r.Got? && AllWords(buf, r.v) && Spelled(buf, r.v) == c && s <= |buf| && Lex(buf, s) == rest
    case Err(e) => r == Bad(e)
  }

  class Parser {
    const buf: string
    var s: nat

    ghost predicate Valid()
      reads this
    {
      s <= |buf| && IsText(buf)
    }

    ghost function Toks(): seq<Tok>
      reads this
      requires Valid()
    {
      Lex(buf, s)
    }

    constructor (line: string)
      requires IsText(line)
      ensures Valid() && buf == line && s == 0
    {
      buf, s := line, 0;
    }

    method SkipBlanks()
      requires Valid()
      modifies this
      ensures Valid() && s == Skip(buf, old(s)) && Toks() == old(Toks()) && old(s) <= s
    {
      while s < |buf| && Blank(buf[s])
        invariant Valid() && old(s) <= s && Skip(buf, s) == Skip(buf, old(s))
      {
        s := s + 1;
      }
      LexSkip(buf, old(s));
    }

    /** peek: is the next character one of these symbols? */
    method Peek(toks: string) returns (r: bool)
      requires Valid()
      modifies this
      ensures Valid() && s == Skip(buf, old(s)) == Skip(buf, s) && Toks() == old(Toks()) && old(s) <= s
      ensures (forall c :: c in toks ==> Symbol(c)) ==>
                (r <==> Starts(Toks(), if '>' in toks then toks + "+" else toks))
    {
      SkipBlanks();
      assert Skip(buf, s) == s;
      r := s < |buf| && buf[s] in toks;
    }

    /** gettoken: the next token, as a character that tells its kind, and where it is; NUL at the end. */
    method GetToken() returns (tok: char, q: nat, eq: nat)
      requires Valid()
      modifies this
      ensures Valid() && old(s) <= s
      ensures if old(Toks()) == [] then tok == '\0' && Toks() == []
              else old(Toks()) == [old(Toks())[0]] + Toks() && s > old(s)
                   && match old(Toks())[0] {
                        case Sym(c) => tok == c && c != 'a' && c != '\0'
                        case Word(w) => tok == 'a' && IsWord(buf, Span(q, eq)) && Text(buf, Span(q, eq)) == w
                      }
    {
      SkipBlanks();
      q := s;
      if s == |buf| {
        tok := '\0';
      } else {
        tok := buf[s];
        if Symbol(tok) {
          s := s + 1;
          if tok == '>' && s < |buf| && buf[s] == '>' {
            tok := '+';
            s := s + 1;
          }
        } else {
          tok := 'a';
          while s < |buf| && !Blank(buf[s]) && !Symbol(buf[s])
            invariant q <= s <= |buf| && IsText(buf) && WordEnd(buf, s) == WordEnd(buf, q)
            invariant forall k :: q <= k < s ==> Letter(buf[k])
          {
            s := s + 1;
          }
        }
        assert s == TokEnd(buf, q);
      }
      eq := s;
      SkipBlanks();
    }

    /** One redirection: its symbol and its file; not ok if the file is missing. */
    method OneRedir() returns (ok: bool, to: To<Span>)
      requires Valid() && Toks() != [] && Toks()[0].Sym?
      modifies this
      ensures Valid() && old(s) < s
      ensures var toks := old(Toks());
              ok <==> |toks| >= 2 && toks[1].Word?
      ensures ok ==> var toks := old(Toks());
                     && Toks() == toks[2..] && IsWord(buf, to.file) && Text(buf, to.file) == toks[1].w
                     && to.output == (toks[0].c != '<')
    {
      ghost var toks := Toks();
      var tok, q, eq := GetToken();
      assert toks[1..] == Toks();
      var kind;
      kind, q, eq := GetToken();
      ok, to := kind == 'a', To(Span(q, eq), tok != '<');
    }

    /** parseredirs: the redirections from here on, after those already seen. */
    method ParseRedirs(before: seq<To<Span>>) returns (r: Res<seq<To<Span>>>)
      requires Valid() && AllTos(buf, before)
      modifies this
      ensures Valid() && old(s) <= s && AgreesTos(buf, PRedirs(SpelledTos(buf, before), old(Toks())), r, s)
    {
      var redirs := before;
      var more := Peek("<>");
      while more
        invariant Valid() && old(s) <= s && AllTos(buf, redirs) && (more <==> Starts(Toks(), "<>+"))
        invariant PRedirs(SpelledTos(buf, redirs), Toks()) == PRedirs(SpelledTos(buf, before), old(Toks()))
        decreases |buf| - s
      {
        ghost var was := SpelledTos(buf, redirs);
        var ok, to := OneRedir();
        if !ok {
          return Bad(MissingFile);
        }
        redirs := redirs + [to];
        assert SpelledTos(buf, redirs) == was + [To(Text(buf, to.file), to.output)];
        more := Peek("<>");
      }
      return Got(redirs);
    }

    /** The next word and the redirections behind it; end at the end of the line. */
    method OneArg(args: seq<Span>, redirs: seq<To<Span>>) returns (end: bool, r: Res<seq<To<Span>>>, w: Span)
      requires Valid() && AllTos(buf, redirs) && |args| < MAXARGS && !Starts(Toks(), "|)&;")
      modifies this
      ensures Valid() && old(s) <= s && (end <==> old(Toks()) == []) && (end ==> Toks() == [])
      ensures !end ==> old(s) < s
      ensures !end ==>
                var p := PArgs(Texts(buf, args), SpelledTos(buf, redirs), old(Toks()));
                if r.Bad? then p == Err(r.e)
                else |args| + 1 < MAXARGS && IsWord(buf, w) && AllTos(buf, r.v)
                     && PArgs(Texts(buf, args) + [Text(buf, w)], SpelledTos(buf, r.v), Toks()) == p
    {
      ghost var toks := Toks();
      var tok, q, eq := GetToken();
      end, r, w := tok == '\0', Bad(Syntax), Span(q, eq);
      if end || tok != 'a' {
        return;
      }
      assert Toks() == toks[1..];
      if |args| + 1 >= MAXARGS {
        r := Bad(TooManyArgs);
        return;
      }
      r := ParseRedirs(redirs);
    }

    /** parseexec, behind the redirections that come first: words, with redirections between them. */
    method ParseArgs(before: seq<To<Span>>) returns (r: Res<Cmd<Span>>)
      requires Valid() && AllTos(buf, before)
      modifies this
      ensures Valid() && old(s) <= s && Agrees(buf, PArgs([], SpelledTos(buf, before), old(Toks())), r, s)
    {
      ghost var goal := PArgs([], SpelledTos(buf, before), Toks());
      var args: seq<Span>, redirs := [], before;
      var stop := Peek("|)&;");
      while !stop
        invariant Valid() && old(s) <= s && AllWords(buf, Exec(args)) && AllTos(buf, redirs) && |args| < MAXARGS
        invariant stop <==> Starts(Toks(), "|)&;")
        invariant PArgs(Texts(buf, args), SpelledTos(buf, redirs), Toks()) == goal
        decreases |buf| - s, !stop
      {
        var end, more, w := OneArg(args, redirs);
        if end {
          break;
        }
        if more.Bad? {
          return Bad(more.e);
        }
        TextsMore(buf, args, w);
        args, redirs := args + [w], more.v;
        stop := Peek("|)&;");
      }
      SpelledWrap(buf, Exec(args), redirs);
      ArgsStop(Texts(buf, args), SpelledTos(buf, redirs), Toks());
      return Got(Wrap(Exec(args), redirs));
    }

    method ParseBlock() returns (r: Res<Cmd<Span>>)
      requires Valid() && Starts(Toks(), "(")
      modifies this
      ensures Valid() && old(s) <= s && Agrees(buf, PExec(old(Toks())), r, s)
      decreases |buf| - s, 0
    {
      ghost var toks := Toks();
      assert PExec(toks) == PBlock(toks);
      var tok, q, eq := GetToken();
      assert Toks() == toks[1..];
      r := ParseLine();
      if r.Bad? {
        return;
      }
      ghost var rest := Toks();
      var closed := Peek(")");
      if !closed {
        return Bad(MissingParen);
      }
      tok, q, eq := GetToken();
      assert Toks() == rest[1..];
      assert SpelledTos(buf, []) == [];
      var redirs := ParseRedirs([]);
      if redirs.Bad? {
        return Bad(redirs.e);
      }
      SpelledWrap(buf, r.v, redirs.v);
      r := Got(Wrap(r.v, redirs.v));
    }

    method ParseExec() returns (r: Res<Cmd<Span>>)
      requires Valid()
      modifies this
      ensures Valid() && old(s) <= s && Agrees(buf, PExec(old(Toks())), r, s)
      decreases |buf| - s, 1
    {
      var block := Peek("(");
      if block {
        r := ParseBlock();
        return;
      }
      assert SpelledTos(buf, []) == [];
      var redirs := ParseRedirs([]);
      if redirs.Bad? {
        return Bad(redirs.e);
      }
      r := ParseArgs(redirs.v);
    }

    method ParsePipe() returns (r: Res<Cmd<Span>>)
      requires Valid()
      modifies this
      ensures Valid() && old(s) <= s && Agrees(buf, PPipe(old(Toks())), r, s)
      decreases |buf| - s, 2
    {
      r := ParseExec();
      if r.Bad? {
        return;
      }
      ghost var rest := Toks();
      var more := Peek("|");
      if more {
        var tok, q, eq := GetToken();
        assert Toks() == rest[1..];
        var right := ParsePipe();
        if right.Bad? {
          return right;
        }
        r := Got(Pipe(r.v, right.v));
      }
    }

    /** The commands in the background, and what they end with. */
    method ParseBacks(cmd: Cmd<Span>) returns (c: Cmd<Span>)
      requires Valid() && AllWords(buf, cmd)
      modifies this
      ensures Valid() && old(s) <= s && AllWords(buf, c)
      ensures PBacks(Spelled(buf, cmd), old(Toks())) == Ok(Spelled(buf, c), Toks())
    {
      c := cmd;
      var more := Peek("&");
      while more
        invariant Valid() && old(s) <= s && AllWords(buf, c) && (more <==> Starts(Toks(), "&"))
        invariant PBacks(Spelled(buf, c), Toks()) == PBacks(Spelled(buf, cmd), old(Toks()))
        decreases |buf| - s
      {
        ghost var toks := Toks();
        var tok, q, eq := GetToken();
        assert Toks() == toks[1..];
        c := Back(c);
        more := Peek("&");
      }
    }

    method ParseLine() returns (r: Res<Cmd<Span>>)
      requires Valid()
      modifies this
      ensures Valid() && old(s) <= s && Agrees(buf, PLine(old(Toks())), r, s)
      decreases |buf| - s, 3
    {
      ghost var backed := PBacked(Toks());
      r := ParsePipe();
      if r.Bad? {
        assert backed == Err(r.e);
        return;
      }
      var left := ParseBacks(r.v);
      r := Got(left);
      assert backed == Ok(Spelled(buf, left), Toks());
      ghost var rest := Toks();
      var more := Peek(";");
      if more {
        var tok, q, eq := GetToken();
        assert Toks() == rest[1..];
        var right := ParseLine();
        if right.Bad? {
          return right;
        }
        r := Got(List(left, right.v));
      }
    }

    /** parsecmd, up to nulterminate. */
    method ParseCmd() returns (r: Res<Cmd<Span>>)
      requires Valid() && s == 0
      modifies this
      ensures Valid() && Agrees(buf, PCmd(Lex(buf, 0)), r, s)
    {
      r := ParseLine();
      if r.Bad? {
        return;
      }
      var none := Peek("");
      if s != |buf| {
        return Bad(Leftovers);
      }
    }
  }

  lemma TextsMore(buf: string, args: seq<Span>, w: Span)
    ensures Texts(buf, args + [w]) == Texts(buf, args) + [Text(buf, w)]
  {}

  ghost predicate AgreesTos(buf: string, p: Parse<seq<To<string>>>, r: Res<seq<To<Span>>>, s: nat)
    requires IsText(buf)
  {
    match p
    case Ok(v, rest) => r.Got? && AllTos(buf, r.v) && SpelledTos(buf, r.v) == v && s <= |buf| && Lex(buf, s) == rest
    case Err(e) => r == Bad(e)
  }

  // ---- nulterminate ----

  /** The positions where the words of c end. */
  ghost predicate Ends(c: Cmd<Span>, k: nat) {
    match c
    case Exec(args) => exists i :: 0 <= i < |args| && args[i].eq == k
    case Redir(cmd, file, _) => Ends(cmd, k) || file.eq == k
    case Pipe(left, right) => Ends(left, k) || Ends(right, k)
    case List(left, right) => Ends(left, k) || Ends(right, k)
    case Back(cmd) => Ends(cmd, k)
  }

  /** The memory m has a C string at q, and it is w. */
  ghost predicate HoldsString(m: seq<char>, q: nat, w: string) {
    q + |w| < |m| && m[q..q + |w|] == w && m[q + |w|] == '\0'
  }

  /** nulterminate: a NUL behind every word of c. */
  method NulTerminate(line: array<char>, c: Cmd<Span>, ghost buf: string)
    requires line.Length == |buf| + 1 && AllWords(buf, c)
    modifies line
    ensures forall k :: 0 <= k < line.Length ==> line[k] == if Ends(c, k) then '\0' else old(line[k])
    decreases c
  {
    match c
    case Exec(args) =>
      for i := 0 to |args|
        invariant forall k :: 0 <= k < line.Length ==>
                    line[k] == if exists j :: 0 <= j < i && args[j].eq == k then '\0' else old(line[k])
      {
        line[args[i].eq] := '\0';
      }
    case Redir(cmd, file, output) =>
      NulTerminate(line, cmd, buf);
      line[file.eq] := '\0';
    case Pipe(left, right) =>
      NulTerminate(line, left, buf);
      NulTerminate(line, right, buf);
    case List(left, right) =>
      NulTerminate(line, left, buf);
      NulTerminate(line, right, buf);
    case Back(cmd) =>
      NulTerminate(line, cmd, buf);
  }

  /** w is one of the words of c. */
  ghost predicate IsWordOf(c: Cmd<Span>, w: Span) {
    match c
    case Exec(args) => w in args
    case Redir(cmd, file, _) => IsWordOf(cmd, w) || file == w
    case Pipe(left, right) => IsWordOf(left, w) || IsWordOf(right, w)
    case List(left, right) => IsWordOf(left, w) || IsWordOf(right, w)
    case Back(cmd) => IsWordOf(cmd, w)
  }

  lemma {:induction false} WordOf(buf: string, c: Cmd<Span>, w: Span)
    requires AllWords(buf, c) && IsWordOf(c, w)
    ensures IsWord(buf, w) && Ends(c, w.eq)
  {
    match c
    case Exec(args) =>
    case Redir(cmd, file, _) => if file != w { WordOf(buf, cmd, w); }
    case Pipe(left, right) => if IsWordOf(left, w) { WordOf(buf, left, w); } else { WordOf(buf, right, w); }
    case List(left, right) => if IsWordOf(left, w) { WordOf(buf, left, w); } else { WordOf(buf, right, w); }
    case Back(cmd) => WordOf(buf, cmd, w);
  }

  /** No word ends inside a word. */
  lemma {:induction false} EndsOutside(buf: string, c: Cmd<Span>, k: nat)
    requires AllWords(buf, c) && Ends(c, k)
    ensures k <= |buf| && (k < |buf| ==> !Letter(buf[k]))
  {
    match c
    case Exec(args) =>
    case Redir(cmd, file, _) => if file.eq != k { EndsOutside(buf, cmd, k); }
    case Pipe(left, right) => if Ends(left, k) { EndsOutside(buf, left, k); } else { EndsOutside(buf, right, k); }
    case List(left, right) => if Ends(left, k) { EndsOutside(buf, left, k); } else { EndsOutside(buf, right, k); }
    case Back(cmd) => EndsOutside(buf, cmd, k);
  }

  /** After nulterminate every word of the command is a C string of exactly its own characters, although all words share
  one buffer. */
  lemma TerminatedWords(buf: string, c: Cmd<Span>, m: seq<char>, w: Span)
    requires AllWords(buf, c) && IsWordOf(c, w) && |m| == |buf| + 1
    requires forall k :: 0 <= k < |m| ==> m[k] == if Ends(c, k) || k == |buf| then '\0' else buf[k]
    ensures HoldsString(m, w.q, Text(buf, w))
  {
    WordOf(buf, c, w);
    forall k | w.q <= k < w.eq
      ensures m[k] == buf[k]
    {
      NoEndInside(buf, c, w, k);
    }
    HoldsWord(buf, m, w);
  }

  lemma HoldsWord(buf: string, m: seq<char>, w: Span)
    requires w.q <= w.eq <= |buf| && |m| == |buf| + 1 && m[w.eq] == '\0'
    requires forall k :: w.q <= k < w.eq ==> m[k] == buf[k]
    ensures HoldsString(m, w.q, Text(buf, w))
  {
    assert m[w.q..w.eq] == buf[w.q..w.eq];
  }

  lemma NoEndInside(buf: string, c: Cmd<Span>, w: Span, k: nat)
    requires AllWords(buf, c) && IsWord(buf, w) && w.q <= k < w.eq
    ensures !Ends(c, k)
  {
    if Ends(c, k) {
      EndsOutside(buf, c, k);
    }
  }

  /** parsecmd on a line in memory: the command is what the grammar says, or the shell gives up where the grammar does;
  and every word of the command is a C string in the same memory. */
  method ParseCommand(line: array<char>) returns (r: Res<Cmd<Span>>)
    requires line.Length > 0 && line[line.Length - 1] == '\0' && IsText(line[..line.Length - 1])
    modifies line
    ensures var buf := old(line[..line.Length - 1]);
            match PCmd(Lex(buf, 0)) {
              case Err(e) => r == Bad(e)
              case Ok(c, rest) =>
                r.Got? && Spelled(buf, r.v) == c && forall w :: IsWordOf(r.v, w) ==>
                    HoldsString(line[..], w.q, Text(buf, w))
            }
  {
    var p := new Parser(line[..line.Length - 1]);
    ghost var buf := p.buf;
    r := p.ParseCmd();
    if r.Got? {
      NulTerminate(line, r.v, buf);
      forall w | IsWordOf(r.v, w)
        ensures HoldsString(line[..], w.q, Text(buf, w))
      {
        TerminatedWords(buf, r.v, line[..], w);
      }
    }
  }

  // ---- from a tree to a line and back ----

  function Spell(t: Tok): string {
    match t
    case Word(w) => w
    case Sym(c) => if c == '+' then ">>" else [c]
  }

  function Render(toks: seq<Tok>): string {
    if toks == [] then "" else Spell(toks[0]) + " " + Render(toks[1..])
  }

  ghost predicate GoodTok(t: Tok) {
    match t
    case Word(w) => w != "" && forall i :: 0 <= i < |w| ==> Letter(w[i])
    case Sym(c) => Symbol(c) || c == '+'
  }

  ghost predicate GoodToks(toks: seq<Tok>) {
    forall i {:trigger toks[i]} :: 0 <= i < |toks| ==> GoodTok(toks[i])
  }

  /** c is b with n characters before it. */
  ghost predicate Shifted(c: string, n: nat, b: string) {
    |c| == n + |b| && forall k {:trigger b[k]} :: 0 <= k < |b| ==> c[n + k] == b[k]
  }

  lemma {:induction false} SkipShift(c: string, n: nat, b: string, i: nat)
    requires Shifted(c, n, b) && i <= |b|
    ensures Skip(c, n + i) == n + Skip(b, i)
    decreases |b| - i
  {
    if i < |b| && Blank(b[i]) {
      SkipShift(c, n, b, i + 1);
    }
  }

  lemma {:induction false} WordEndShift(c: string, n: nat, b: string, i: nat)
    requires Shifted(c, n, b) && i <= |b|
    ensures WordEnd(c, n + i) == n + WordEnd(b, i)
    decreases |b| - i
  {
    if i < |b| && Letter(b[i]) {
      WordEndShift(c, n, b, i + 1);
    }
  }

  lemma TokShift(c: string, n: nat, b: string, j: nat)
    requires Shifted(c, n, b) && j < |b| && !Blank(b[j]) && b[j] != '\0'
    ensures !Blank(c[n + j]) && c[n + j] != '\0'
    ensures TokAt(c, n + j) == TokAt(b, j) && TokEnd(c, n + j) == n + TokEnd(b, j)
  {
    WordEndShift(c, n, b, j);
    var e := WordEnd(b, j);
    assert c[n + j..n + e] == b[j..e] by {
      forall k | j <= k < e
        ensures c[n + k] == b[k]
      {}
    }
    assert j + 1 < |b| ==> c[n + (j + 1)] == b[j + 1];
  }

  /** Two places with the same next token and the same tokens behind it. */
  lemma LexSame(c: string, i: nat, j: nat, e: nat, c': string, i': nat, j': nat, e': nat)
    requires IsText(c) && i <= |c| && j == Skip(c, i) < |c| && e == TokEnd(c, j)
    requires IsText(c') && i' <= |c'| && j' == Skip(c', i') < |c'| && e' == TokEnd(c', j')
    requires TokAt(c, j) == TokAt(c', j') && Lex(c, e) == Lex(c', e')
    ensures Lex(c, i) == Lex(c', i')
  {}

  /** What stands before a token does not matter. */
  lemma {:induction false} LexShift(c: string, n: nat, b: string, i: nat)
    requires IsText(c) && IsText(b) && Shifted(c, n, b) && i <= |b|
    ensures Lex(c, n + i) == Lex(b, i)
    decreases |b| - i
  {
    SkipShift(c, n, b, i);
    var j := Skip(b, i);
    if j < |b| {
      TokShift(c, n, b, j);
      var e := TokEnd(b, j);
      LexShift(c, n, b, e);
      LexSame(c, n + i, n + j, n + e, b, i, j, e);
    }
  }

  ghost predicate Blanks(w: string) {
    forall k :: 0 <= k < |w| ==> Blank(w[k])
  }

  lemma {:induction false} WordEndIs(buf: string, i: nat, e: nat)
    requires i <= e <= |buf| && (forall k :: i <= k < e ==> Letter(buf[k])) && (e < |buf| ==> !Letter(buf[e]))
    ensures WordEnd(buf, i) == e
    decreases e - i
  {
    if i < e {
      WordEndIs(buf, i + 1, e);
    }
  }

  /** What follows does not belong to the token. */
  ghost predicate EndsBefore(t: Tok, rest: string) {
    && (t.Word? && rest != "" ==> !Letter(rest[0]))
    && (t == Sym('>') && rest != "" ==> rest[0] != '>')
  }

  lemma LexBlank(buf: string, i: nat)
    requires IsText(buf) && i < |buf| && Blank(buf[i])
    ensures Lex(buf, i) == Lex(buf, i + 1)
  {
    LexSkip(buf, i);
    LexSkip(buf, i + 1);
  }

  lemma SpellIsText(t: Tok)
    requires GoodTok(t)
    ensures IsText(Spell(t))
  {}

  lemma {:induction false} LexBlanks(gap: string, rest: string)
    requires Blanks(gap) && IsText(rest)
    ensures IsText(gap + rest) && Lex(gap + rest, 0) == Lex(rest, 0)
    decreases |gap|
  {
    var buf := gap + rest;
    if gap == "" {
      assert buf == rest;
    } else {
      LexBlanks(gap[1..], rest);
      assert buf[1..] == gap[1..] + rest && Shifted(buf, 1, buf[1..]);
      LexBlank(buf, 0);
      LexShift(buf, 1, buf[1..], 0);
    }
  }

  lemma FirstTok(t: Tok, rest: string)
    requires GoodTok(t) && EndsBefore(t, rest)
    ensures var buf := Spell(t) + rest;
            && buf != "" && !Blank(buf[0]) && buf[0] != '\0' && TokAt(buf, 0) == t && TokEnd(buf, 0) == |Spell(t)|
  {
    var buf := Spell(t) + rest;
    if t.Word? {
      WordEndIs(buf, 0, |t.w|);
      assert buf[..|t.w|] == t.w;
    }
  }

  lemma LexTok(t: Tok, rest: string)
    requires GoodTok(t) && EndsBefore(t, rest) && IsText(rest)
    ensures IsText(Spell(t) + rest) && Lex(Spell(t) + rest, 0) == [t] + Lex(rest, 0)
  {
    var buf := Spell(t) + rest;
    SpellIsText(t);
    FirstTok(t, rest);
    assert Shifted(buf, |Spell(t)|, rest);
    LexShift(buf, |Spell(t)|, rest, 0);
  }

  /** The line printed for some tokens has these tokens. */
  lemma {:induction false} RenderLex(toks: seq<Tok>)
    requires GoodToks(toks)
    ensures IsText(Render(toks)) && Lex(Render(toks), 0) == toks
    decreases |toks|
  {
    if toks != [] {
      var rest := Render(toks[1..]);
      RenderLex(toks[1..]);
      LexBlanks(" ", rest);
      LexTok(toks[0], " " + rest);
      assert Render(toks) == Spell(toks[0]) + (" " + rest);
    }
  }

  ghost predicate GoodWords(c: Cmd<string>) {
    match c
    case Exec(args) => forall i {:trigger args[i]} :: 0 <= i < |args| ==> GoodTok(Word(args[i]))
    case Redir(cmd, file, _) => GoodWords(cmd) && GoodTok(Word(file))
    case Pipe(left, right) => GoodWords(left) && GoodWords(right)
    case List(left, right) => GoodWords(left) && GoodWords(right)
    case Back(cmd) => GoodWords(cmd)
  }

  lemma GoodConcat(a: seq<Tok>, b: seq<Tok>)
    requires GoodToks(a) && GoodToks(b)
    ensures GoodToks(a + b)
  {}

  lemma {:induction false} ShownExec(c: Cmd<string>)
    requires GoodWords(c)
    ensures GoodToks(ShowExec(c))
    decreases c, 0
  {
    match c
    case Exec(args) =>
    case Redir(cmd, file, output) =>
      ShownExec(cmd);
      GoodConcat(ShowExec(cmd), Redirect(file, output));
    case Pipe(left, right) =>
      ShownExec(left);
      ShownPipe(right);
    case Back(cmd) =>
      ShownBack(cmd);
    case List(left, right) =>
      ShownBack(left);
      ShownLine(right);
  }

  lemma {:induction false} ShownPipe(c: Cmd<string>)
    requires GoodWords(c)
    ensures GoodToks(ShowPipe(c))
    decreases c, 1
  {
    if c.Pipe? {
      ShownExec(c.left);
      ShownPipe(c.right);
    } else {
      ShownExec(c);
    }
  }

  lemma {:induction false} ShownBack(c: Cmd<string>)
    requires GoodWords(c)
    ensures GoodToks(ShowBack(c))
    decreases c, 2
  {
    if c.Back? {
      ShownBack(c.cmd);
    } else {
      ShownPipe(c);
    }
  }

  lemma {:induction false} ShownLine(c: Cmd<string>)
    requires GoodWords(c)
    ensures GoodToks(ShowLine(c))
    decreases c, 3
  {
    if c.List? {
      ShownBack(c.left);
      ShownLine(c.right);
    } else {
      ShownBack(c);
    }
  }

  /** Every command tree with at most nine words in each simple command can be written as a line, and parsing this line
  gives the tree back. */
  method PrintAndParse(c: Cmd<string>) returns (line: string, r: Res<Cmd<Span>>)
    requires Accepted(c) && GoodWords(c)
    ensures IsText(line) && r.Got? && AllWords(line, r.v) && Spelled(line, r.v) == c
  {
    line := Render(ShowLine(c));
    ShownLine(c);
    RenderLex(ShowLine(c));
    RoundTrip(c);
    var p := new Parser(line);
    r := p.ParseCmd();
  }
}
