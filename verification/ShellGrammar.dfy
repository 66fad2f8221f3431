/** The shell's grammar as syntax trees, with every parenthesis, redirection and symbol of a line in its place; and the
parser accepts exactly the lines of this grammar. */
module ShellGrammar {
  import opened ShellSyntax

  /** A word, or a redirection to or from a file. */
  datatype Piece = Arg(w: string) | Dir(sym: char, file: string)

  datatype Part = Simple(pieces: seq<Piece>) | Block(line: Line, dirs: seq<Piece>)

  datatype Pipeline = Last(part: Part) | Into(part: Part, rest: Pipeline)

  /** A pipeline with some & behind it, and perhaps a ; and more. */
  datatype Line = Final(pipe: Pipeline, backs: nat) | Before(pipe: Pipeline, backs: nat, rest: Line)

  // ---- how they are written ----

  function PieceToks(p: Piece): seq<Tok> {
    match p
    case Arg(w) => [Word(w)]
    case Dir(sym, file) => [Sym(sym), Word(file)]
  }

  function PiecesToks(ps: seq<Piece>): seq<Tok> {
    if ps == [] then [] else PieceToks(ps[0]) + PiecesToks(ps[1..])
  }

  function Ands(n: nat): seq<Tok> {
    seq(n, _ => Sym('&'))
  }

  function PartToks(p: Part): seq<Tok>
    decreases p, 0
  {
    match p
    case Simple(pieces) => PiecesToks(pieces)
    case Block(line, dirs) => [Sym('(')] + LineToks(line) + [Sym(')')] + PiecesToks(dirs)
  }

  function PipeToks(p: Pipeline): seq<Tok>
    decreases p, 1
  {
    match p
    case Last(part) => PartToks(part)
    case Into(part, rest) => PartToks(part) + [Sym('|')] + PipeToks(rest)
  }

  function LineToks(l: Line): seq<Tok>
    decreases l, 2
  {
    match l
    case Final(pipe, backs) => PipeToks(pipe) + Ands(backs)
    case Before(pipe, backs, rest) => PipeToks(pipe) + Ands(backs) + [Sym(';')] + LineToks(rest)
  }

  // ---- what they mean ----

  function ArgOf(p: Piece): seq<string> {
    if p.Arg? then [p.w] else []
  }

  function DirOf(p: Piece): seq<To<string>> {
    if p.Dir? then [To(p.file, p.sym != '<')] else []
  }

  function Args(ps: seq<Piece>): seq<string> {
    if ps == [] then [] else ArgOf(ps[0]) + Args(ps[1..])
  }

  function Dirs(ps: seq<Piece>): seq<To<string>> {
    if ps == [] then [] else DirOf(ps[0]) + Dirs(ps[1..])
  }

  function Backs(c: Cmd<string>, n: nat): Cmd<string>
    decreases n
  {
    if n == 0 then c else Backs(Back(c), n - 1)
  }

  function PartTree(p: Part): Cmd<string>
    decreases p, 0
  {
    match p
    case Simple(pieces) => Wrap(Exec(Args(pieces)), Dirs(pieces))
    case Block(line, dirs) => Wrap(LineTree(line), Dirs(dirs))
  }

  function PipeTree(p: Pipeline): Cmd<string>
    decreases p, 1
  {
    match p
    case Last(part) => PartTree(part)
    case Into(part, rest) => Pipe(PartTree(part), PipeTree(rest))
  }

  function LineTree(l: Line): Cmd<string>
    decreases l, 2
  {
    match l
    case Final(pipe, backs) => Backs(PipeTree(pipe), backs)
    case Before(pipe, backs, rest) => List(Backs(PipeTree(pipe), backs), LineTree(rest))
  }

  // ---- which are well formed ----

  /** Redirections are < > and, as +, >>. */
  ghost predicate GoodPieces(ps: seq<Piece>) {
    forall i {:trigger ps[i]} :: 0 <= i < |ps| && ps[i].Dir? ==> ps[i].sym in "<>+"
  }

  ghost predicate OnlyDirs(ps: seq<Piece>) {
    forall i {:trigger ps[i]} :: 0 <= i < |ps| ==> ps[i].Dir?
  }

  ghost predicate GoodPart(p: Part)
    decreases p, 0
  {
    match p
    case Simple(pieces) => GoodPieces(pieces) && |Args(pieces)| < MAXARGS
    case Block(line, dirs) => GoodLine(line) && GoodPieces(dirs) && OnlyDirs(dirs)
  }

  ghost predicate GoodPipe(p: Pipeline)
    decreases p, 1
  {
    match p
    case Last(part) => GoodPart(part)
    case Into(part, rest) => GoodPart(part) && GoodPipe(rest)
  }

  ghost predicate GoodLine(l: Line)
    decreases l, 2
  {
    match l
    case Final(pipe, _) => GoodPipe(pipe)
    case Before(pipe, _, rest) => GoodPipe(pipe) && GoodLine(rest)
  }

  // ---- what the grammar has, the parser accepts ----

  lemma Assoc<T>(a: seq<T>, b: seq<T>, c: seq<T>)
    ensures a + b + c == a + (b + c)
  {}

  /** Two pieces in front of the rest are one. */
  lemma Join<T>(all: seq<T>, a: seq<T>, more: seq<T>, b: seq<T>, rest: seq<T>)
    requires all == a + more && more == b + rest
    ensures all == a + b + rest
  {}

  lemma Tail<T>(x: T, xs: seq<T>)
    requires xs != [] && xs[0] == x
    ensures xs == [x] + xs[1..]
  {}

  lemma Nothing<T>(a: seq<T>)
    ensures a + [] == a == [] + a
  {}

  lemma PiecesFirst(p: Piece, ps: seq<Piece>)
    ensures PiecesToks([p] + ps) == PieceToks(p) + PiecesToks(ps)
    ensures Args([p] + ps) == ArgOf(p) + Args(ps) && Dirs([p] + ps) == DirOf(p) + Dirs(ps)
  {
    assert ([p] + ps)[1..] == ps;
  }

  lemma DirParses(before: seq<To<string>>, p: Piece, toks: seq<Tok>)
    requires p.Dir? && p.sym in "<>+"
    ensures PRedirs(before, PieceToks(p) + toks) == PRedirs(before + DirOf(p), toks)
  {
    assert (PieceToks(p) + toks)[2..] == toks;
  }

  lemma {:induction false} DirsParse(before: seq<To<string>>, ps: seq<Piece>, rest: seq<Tok>)
    requires GoodPieces(ps) && OnlyDirs(ps) && !Starts(rest, "<>+")
    ensures PRedirs(before, PiecesToks(ps) + rest) == Ok(before + Dirs(ps), rest)
    decreases |ps|
  {
    if ps == [] {
      Nothing(rest);
      Nothing(before);
    } else {
      var p, more := ps[0], ps[1..];
      Assoc(PieceToks(p), PiecesToks(more), rest);
      DirParses(before, p, PiecesToks(more) + rest);
      DirsParse(before + DirOf(p), more, rest);
      Assoc(before, DirOf(p), Dirs(more));
    }
  }

  /** The redirections from here on, then the words with theirs. */
  ghost function PPieces(args: seq<string>, redirs: seq<To<string>>, toks: seq<Tok>): Parse<Cmd<string>> {
    var p := PRedirs(redirs, toks);
    if p.Err? then Err(p.error) else PArgs(args, p.value, p.rest)
  }

  lemma PieceParses(args: seq<string>, redirs: seq<To<string>>, p: Piece, toks: seq<Tok>)
    requires (p.Dir? ==> p.sym in "<>+") && |args| + |ArgOf(p)| < MAXARGS
    ensures PPieces(args, redirs, PieceToks(p) + toks) == PPieces(args + ArgOf(p), redirs + DirOf(p), toks)
  {
    match p
    case Arg(w) =>
      assert (PieceToks(p) + toks)[1..] == toks;
      Nothing(redirs);
    case Dir(_, _) =>
      DirParses(redirs, p, toks);
      Nothing(args);
  }

  lemma {:induction false} PiecesThrough(args: seq<string>, redirs: seq<To<string>>, ps: seq<Piece>, rest: seq<Tok>)
    requires GoodPieces(ps) && |args| + |Args(ps)| < MAXARGS
    ensures PPieces(args, redirs, PiecesToks(ps) + rest) == PPieces(args + Args(ps), redirs + Dirs(ps), rest)
    decreases |ps|
  {
    if ps == [] {
      Nothing(rest);
      Nothing(args);
      Nothing(redirs);
    } else {
      var p, more := ps[0], ps[1..];
      Assoc(PieceToks(p), PiecesToks(more), rest);
      PieceParses(args, redirs, p, PiecesToks(more) + rest);
      PiecesThrough(args + ArgOf(p), redirs + DirOf(p), more, rest);
      Assoc(args, ArgOf(p), Args(more));
      Assoc(redirs, DirOf(p), Dirs(more));
    }
  }

  lemma FirstTok(ps: seq<Piece>, rest: seq<Tok>)
    requires GoodPieces(ps) && (ps == [] ==> !Starts(rest, "("))
    ensures !Starts(PiecesToks(ps) + rest, "(")
  {
    if ps == [] {
      assert PiecesToks(ps) + rest == rest;
    } else {
      assert ps[0].Dir? ==> ps[0].sym != '(';
    }
  }

  lemma {:induction false} AndsParse(c: Cmd<string>, n: nat, rest: seq<Tok>)
    requires !Starts(rest, "&")
    ensures PBacks(c, Ands(n) + rest) == Ok(Backs(c, n), rest)
    decreases n
  {
    if n == 0 {
      assert Ands(n) + rest == rest;
    } else {
      AndsParse(Back(c), n - 1, rest);
      assert (Ands(n) + rest)[1..] == Ands(n - 1) + rest;
    }
  }

  lemma {:induction false} PartParses(p: Part, rest: seq<Tok>)
    requires GoodPart(p) && Stops(rest, "|)&;")
    ensures PExec(PartToks(p) + rest) == Ok(PartTree(p), rest)
    decreases p, 0
  {
    match p
    case Simple(pieces) =>
      FirstTok(pieces, rest);
      PiecesThrough([], [], pieces, rest);
      Nothing(Args(pieces));
      Nothing(Dirs(pieces));
    case Block(line, dirs) =>
      LineParses(line, [Sym(')')] + (PiecesToks(dirs) + rest));
      BlockParses(line, dirs, rest);
  }

  lemma Nested<T>(a: seq<T>, b: seq<T>, c: seq<T>, d: seq<T>, e: seq<T>)
    ensures a + b + c + d + e == a + (b + (c + (d + e)))
  {
    Assoc(a + b + c, d, e);
    Assoc(a + b, c, d + e);
    Assoc(a, b, c + (d + e));
  }

  lemma BlockParses(line: Line, dirs: seq<Piece>, rest: seq<Tok>)
    requires GoodPieces(dirs) && OnlyDirs(dirs) && !Starts(rest, "<>+")
    requires var behind := [Sym(')')] + (PiecesToks(dirs) + rest);
             PLine(LineToks(line) + behind) == Ok(LineTree(line), behind)
    ensures PExec(PartToks(Block(line, dirs)) + rest) == Ok(PartTree(Block(line, dirs)), rest)
  {
    var behind := [Sym(')')] + (PiecesToks(dirs) + rest);
    var toks := PartToks(Block(line, dirs)) + rest;
    Nested([Sym('(')], LineToks(line), [Sym(')')], PiecesToks(dirs), rest);
    First(Sym('('), LineToks(line) + behind);
    First(Sym(')'), PiecesToks(dirs) + rest);
    DirsParse([], dirs, rest);
    Nothing(Dirs(dirs));
    assert PExec(toks) == PBlock(toks);
  }

  lemma {:induction false} PipeParses(p: Pipeline, rest: seq<Tok>)
    requires GoodPipe(p) && Stops(rest, ")&;")
    ensures PPipe(PipeToks(p) + rest) == Ok(PipeTree(p), rest)
    decreases p, 1
  {
    match p
    case Last(part) => PartParses(part, rest);
    case Into(part, more) =>
      var behind := [Sym('|')] + (PipeToks(more) + rest);
      Assoc(PartToks(part) + [Sym('|')], PipeToks(more), rest);
      Assoc(PartToks(part), [Sym('|')], PipeToks(more) + rest);
      PartParses(part, behind);
      First(Sym('|'), PipeToks(more) + rest);
      PipeParses(more, rest);
  }

  lemma {:induction false} BackedParses(pipe: Pipeline, backs: nat, rest: seq<Tok>)
    requires GoodPipe(pipe) && Stops(rest, ");")
    ensures PBacked(PipeToks(pipe) + Ands(backs) + rest) == Ok(Backs(PipeTree(pipe), backs), rest)
    decreases pipe, 2
  {
    var behind := Ands(backs) + rest;
    Assoc(PipeToks(pipe), Ands(backs), rest);
    assert backs == 0 ==> behind == rest;
    PipeParses(pipe, behind);
    AndsParse(PipeTree(pipe), backs, rest);
  }

  lemma {:induction false} LineParses(l: Line, rest: seq<Tok>)
    requires GoodLine(l) && Stops(rest, ")")
    ensures PLine(LineToks(l) + rest) == Ok(LineTree(l), rest)
    decreases l, 3
  {
    match l
    case Final(pipe, backs) => BackedParses(pipe, backs, rest);
    case Before(pipe, backs, more) =>
      var behind := [Sym(';')] + (LineToks(more) + rest);
      Assoc(PipeToks(pipe) + Ands(backs) + [Sym(';')], LineToks(more), rest);
      Assoc(PipeToks(pipe) + Ands(backs), [Sym(';')], LineToks(more) + rest);
      BackedParses(pipe, backs, behind);
      First(Sym(';'), LineToks(more) + rest);
      LineParses(more, rest);
  }

  // ---- what the parser accepts, the grammar has ----

  lemma ConcatTail<T>(a: seq<T>, b: seq<T>)
    requires a != []
    ensures (a + b)[0] == a[0] && (a + b)[1..] == a[1..] + b
  {}

  lemma {:induction false} ToksConcat(a: seq<Piece>, b: seq<Piece>)
    ensures PiecesToks(a + b) == PiecesToks(a) + PiecesToks(b)
    decreases |a|
  {
    if a == [] {
      Nothing(b);
      Nothing(PiecesToks(b));
    } else {
      ToksConcat(a[1..], b);
      ConcatTail(a, b);
      Assoc(PieceToks(a[0]), PiecesToks(a[1..]), PiecesToks(b));
    }
  }

  lemma {:induction false} ArgsConcat(a: seq<Piece>, b: seq<Piece>)
    ensures Args(a + b) == Args(a) + Args(b)
    decreases |a|
  {
    if a == [] {
      Nothing(b);
      Nothing(Args(b));
    } else {
      ArgsConcat(a[1..], b);
      ConcatTail(a, b);
      Assoc(ArgOf(a[0]), Args(a[1..]), Args(b));
    }
  }

  lemma {:induction false} DirsConcat(a: seq<Piece>, b: seq<Piece>)
    ensures Dirs(a + b) == Dirs(a) + Dirs(b)
    decreases |a|
  {
    if a == [] {
      Nothing(b);
      Nothing(Dirs(b));
    } else {
      DirsConcat(a[1..], b);
      ConcatTail(a, b);
      Assoc(DirOf(a[0]), Dirs(a[1..]), Dirs(b));
    }
  }

  lemma PiecesConcat(a: seq<Piece>, b: seq<Piece>)
    ensures PiecesToks(a + b) == PiecesToks(a) + PiecesToks(b)
    ensures Args(a + b) == Args(a) + Args(b) && Dirs(a + b) == Dirs(a) + Dirs(b)
    ensures GoodPieces(a) && GoodPieces(b) ==> GoodPieces(a + b)
  {
    ToksConcat(a, b);
    ArgsConcat(a, b);
    DirsConcat(a, b);
  }

  lemma TwoAndMore(toks: seq<Tok>)
    requires |toks| >= 2 && toks[0].Sym? && toks[1].Word?
    ensures toks == PieceToks(Dir(toks[0].c, toks[1].w)) + toks[2..]
  {}

  lemma DirFirst(d: Piece, ds: seq<Piece>)
    requires d.Dir? && d.sym in "<>+" && GoodPieces(ds) && OnlyDirs(ds) && Args(ds) == []
    ensures GoodPieces([d] + ds) && OnlyDirs([d] + ds) && Args([d] + ds) == []
  {
    PiecesFirst(d, ds);
  }

  lemma {:induction false} DirsFrom(redirs: seq<To<string>>, toks: seq<Tok>) returns (ds: seq<Piece>)
    requires PRedirs(redirs, toks).Ok?
    ensures GoodPieces(ds) && OnlyDirs(ds) && Args(ds) == []
    ensures toks == PiecesToks(ds) + PRedirs(redirs, toks).rest && PRedirs(redirs, toks).value == redirs + Dirs(ds)
    decreases |toks|
  {
    if Starts(toks, "<>+") {
      var d := Dir(toks[0].c, toks[1].w);
      var more := DirsFrom(redirs + DirOf(d), toks[2..]);
      ds := [d] + more;
      DirFirst(d, more);
      PiecesFirst(d, more);
      TwoAndMore(toks);
      Join(toks, PieceToks(d), toks[2..], PiecesToks(more), PRedirs(redirs, toks).rest);
      Assoc(redirs, DirOf(d), Dirs(more));
    } else {
      ds := [];
      Nothing(toks);
      Nothing(redirs);
    }
  }

  lemma {:induction false} ArgsFrom(args: seq<string>, redirs: seq<To<string>>, toks: seq<Tok>) returns (ps: seq<Piece>)
    requires PArgs(args, redirs, toks).Ok? && |args| < MAXARGS
    ensures GoodPieces(ps) && |args| + |Args(ps)| < MAXARGS
    ensures var p := PArgs(args, redirs, toks);
            toks == PiecesToks(ps) + p.rest && p.value == Wrap(Exec(args + Args(ps)), redirs + Dirs(ps))
    decreases |toks|
  {
    if toks == [] || Starts(toks, "|)&;") {
      ps := [];
      Nothing(toks);
      Nothing(args);
      Nothing(redirs);
    } else {
      var w := toks[0].w;
      var ds := DirsFrom(redirs, toks[1..]);
      var p := PRedirs(redirs, toks[1..]);
      var more := ArgsFrom(args + [w], p.value, p.rest);
      ps := [Arg(w)] + (ds + more);
      ArgAndDirs(w, ds, more);
      Tail(Word(w), toks);
      Join(toks[1..], PiecesToks(ds), p.rest, PiecesToks(more), PArgs(args, redirs, toks).rest);
      Join(toks, [Word(w)], toks[1..], PiecesToks(ds) + PiecesToks(more), PArgs(args, redirs, toks).rest);
      Assoc(args, [w], Args(more));
      Assoc(redirs, Dirs(ds), Dirs(more));
    }
  }

  lemma ArgAndDirs(w: string, ds: seq<Piece>, more: seq<Piece>)
    requires GoodPieces(ds) && GoodPieces(more) && Args(ds) == []
    ensures var ps := [Arg(w)] + (ds + more);
            && GoodPieces(ps) && PiecesToks(ps) == [Word(w)] + (PiecesToks(ds) + PiecesToks(more))
            && Args(ps) == [w] + Args(more) && Dirs(ps) == Dirs(ds) + Dirs(more)
  {
    PiecesConcat(ds, more);
    PiecesFirst(Arg(w), ds + more);
    Nothing(Args(more));
    Nothing(Dirs(ds) + Dirs(more));
  }

  lemma BlockToks(toks: seq<Tok>, line: seq<Tok>, close: seq<Tok>, dirs: seq<Tok>, rest: seq<Tok>)
    requires toks != [] && toks[0] == Sym('(') && toks[1..] == line + close
    requires close != [] && close[0] == Sym(')') && close[1..] == dirs + rest
    ensures toks == [Sym('(')] + line + [Sym(')')] + dirs + rest
  {
    Tail(Sym('('), toks);
    Tail(Sym(')'), close);
    Join(toks, [Sym('(')], toks[1..], line, close);
    Join(toks, [Sym('(')] + line, close, [Sym(')')], close[1..]);
    Join(toks, [Sym('(')] + line + [Sym(')')], close[1..], dirs, rest);
  }

  lemma {:induction false} PartFrom(toks: seq<Tok>) returns (p: Part)
    requires PExec(toks).Ok?
    ensures GoodPart(p) && toks == PartToks(p) + PExec(toks).rest && PExec(toks).value == PartTree(p)
    decreases |toks|, 0
  {
    if Starts(toks, "(") {
      p := BlockFrom(toks);
    } else {
      var q := PRedirs([], toks);
      var ds := DirsFrom([], toks);
      var more := ArgsFrom([], q.value, q.rest);
      p := Simple(ds + more);
      PiecesConcat(ds, more);
      Nothing(Args(more));
      Nothing(Dirs(ds));
      Join(toks, PiecesToks(ds), q.rest, PiecesToks(more), PExec(toks).rest);
    }
  }

  lemma {:induction false} BlockFrom(toks: seq<Tok>) returns (p: Part)
    requires PExec(toks).Ok? && Starts(toks, "(")
    ensures GoodPart(p) && toks == PartToks(p) + PExec(toks).rest && PExec(toks).value == PartTree(p)
    decreases |toks|, 0, 0
  {
    assert PExec(toks) == PBlock(toks);
    var l := PLine(toks[1..]);
    var line := LineFrom(toks[1..]);
    var dirs := DirsFrom([], l.rest[1..]);
    p := Block(line, dirs);
    Nothing(Dirs(dirs));
    BlockToks(toks, LineToks(line), l.rest, PiecesToks(dirs), PExec(toks).rest);
  }

  /** a, then the symbol, then b. */
  lemma Between(toks: seq<Tok>, a: seq<Tok>, more: seq<Tok>, c: char, b: seq<Tok>, rest: seq<Tok>)
    requires toks == a + more && more != [] && more[0] == Sym(c) && more[1..] == b + rest
    ensures toks == a + [Sym(c)] + b + rest
  {
    Tail(Sym(c), more);
    Join(toks, a, more, [Sym(c)], more[1..]);
    Join(toks, a + [Sym(c)], more[1..], b, rest);
  }

  lemma {:induction false} PipeFrom(toks: seq<Tok>) returns (p: Pipeline)
    requires PPipe(toks).Ok?
    ensures GoodPipe(p) && toks == PipeToks(p) + PPipe(toks).rest && PPipe(toks).value == PipeTree(p)
    decreases |toks|, 1
  {
    var part := PartFrom(toks);
    var left := PExec(toks);
    if Starts(left.rest, "|") {
      var more := PipeFrom(left.rest[1..]);
      p := Into(part, more);
      Between(toks, PartToks(part), left.rest, '|', PipeToks(more), PPipe(toks).rest);
    } else {
      p := Last(part);
    }
  }

  lemma {:induction false} AndsFrom(c: Cmd<string>, toks: seq<Tok>) returns (n: nat)
    ensures toks == Ands(n) + PBacks(c, toks).rest && PBacks(c, toks).value == Backs(c, n)
    decreases |toks|
  {
    if Starts(toks, "&") {
      n := AndsFrom(Back(c), toks[1..]);
      n := n + 1;
      assert toks == [Sym('&')] + toks[1..];
      assert Ands(n) == [Sym('&')] + Ands(n - 1);
      Assoc([Sym('&')], Ands(n - 1), PBacks(c, toks).rest);
    } else {
      n := 0;
      Nothing(toks);
    }
  }

  lemma {:induction false} LineFrom(toks: seq<Tok>) returns (l: Line)
    requires PLine(toks).Ok?
    ensures GoodLine(l) && toks == LineToks(l) + PLine(toks).rest && PLine(toks).value == LineTree(l)
    decreases |toks|, 2
  {
    var pipe := PipeFrom(toks);
    var q := PPipe(toks);
    var n := AndsFrom(q.value, q.rest);
    var left := PBacked(toks);
    Join(toks, PipeToks(pipe), q.rest, Ands(n), left.rest);
    if Starts(left.rest, ";") {
      var more := LineFrom(left.rest[1..]);
      l := Before(pipe, n, more);
      Between(toks, PipeToks(pipe) + Ands(n), left.rest, ';', LineToks(more), PLine(toks).rest);
    } else {
      l := Final(pipe, n);
    }
  }

  // ---- the parser and the grammar ----

  /** The parser accepts exactly the token lists of the grammar, and its tree is the one they mean. */
  lemma ParsesIff(toks: seq<Tok>, c: Cmd<string>)
    ensures PCmd(toks) == Ok(c, []) <==> exists l :: GoodLine(l) && LineToks(l) == toks && LineTree(l) == c
  {
    Nothing(toks);
    if PCmd(toks) == Ok(c, []) {
      var l := LineFrom(toks);
      Nothing(LineToks(l));
      assert GoodLine(l) && LineToks(l) == toks && LineTree(l) == c;
    }
    if l :| GoodLine(l) && LineToks(l) == toks && LineTree(l) == c {
      LineParses(l, []);
    }
  }

  // ---- what the shell complains about: each complaint has its reason ----

  lemma ErrorThrough(toks: seq<Tok>)
    requires PExec(toks).Err?
    ensures PCmd(toks) == Err(PExec(toks).error)
  {
    assert PPipe(toks) == PExec(toks);
    assert PBacked(toks) == PPipe(toks);
    assert PLine(toks) == PBacked(toks);
  }

  /** The parser gets to the token behind some words and redirections. */
  lemma PiecesThen(ps: seq<Piece>, t: Tok, more: seq<Tok>)
    requires GoodPieces(ps) && |Args(ps)| < MAXARGS && (ps == [] ==> t != Sym('('))
    ensures PExec(PiecesToks(ps) + ([t] + more)) == PPieces(Args(ps), Dirs(ps), [t] + more)
  {
    PiecesThrough([], [], ps, [t] + more);
    Nothing(Args(ps));
    Nothing(Dirs(ps));
    FirstTok(ps, [t] + more);
  }

  lemma MissingFileTold(ps: seq<Piece>, sym: char, more: seq<Tok>)
    requires GoodPieces(ps) && |Args(ps)| < MAXARGS && sym in "<>+" && (more == [] || !more[0].Word?)
    ensures PCmd(PiecesToks(ps) + ([Sym(sym)] + more)) == Err(MissingFile)
  {
    PiecesThen(ps, Sym(sym), more);
    ErrorThrough(PiecesToks(ps) + ([Sym(sym)] + more));
  }

  lemma SyntaxTold(ps: seq<Piece>, more: seq<Tok>)
    requires GoodPieces(ps) && |Args(ps)| < MAXARGS && ps != []
    ensures PCmd(PiecesToks(ps) + ([Sym('(')] + more)) == Err(Syntax)
  {
    PiecesThen(ps, Sym('('), more);
    ErrorThrough(PiecesToks(ps) + ([Sym('(')] + more));
  }

  lemma TooManyArgsTold(ps: seq<Piece>, w: string, more: seq<Tok>)
    requires GoodPieces(ps) && |Args(ps)| == MAXARGS - 1
    ensures PCmd(PiecesToks(ps) + ([Word(w)] + more)) == Err(TooManyArgs)
  {
    PiecesThen(ps, Word(w), more);
    ErrorThrough(PiecesToks(ps) + ([Word(w)] + more));
  }

  lemma MissingParenTold(l: Line)
    requires GoodLine(l)
    ensures PCmd([Sym('(')] + LineToks(l)) == Err(MissingParen)
  {
    var toks := [Sym('(')] + LineToks(l);
    First(Sym('('), LineToks(l));
    Nothing(LineToks(l));
    LineParses(l, []);
    assert PExec(toks) == PBlock(toks);
    ErrorThrough(toks);
  }

  lemma LeftoversTold(l: Line, more: seq<Tok>)
    requires GoodLine(l)
    ensures PCmd(LineToks(l) + ([Sym(')')] + more)) == Err(Leftovers)
  {
    LineParses(l, [Sym(')')] + more);
  }
}
