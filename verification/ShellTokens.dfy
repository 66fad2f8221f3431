/** How a line splits into tokens: as it was laid out, wherever the blanks are.

Tokens may touch, unless they are two words, or a > in front of another >. */
module ShellTokens {
  import opened ShellSyntax
  import opened ShellParser
  import opened ShellLines
  import opened ShellGrammar

  const WHITESPACE := " \t\r\n\U{0B}"
  const SYMBOLS := "<|>&;()"

  /** The characters the lexer tells apart. */
  lemma Tables(c: char)
    ensures Blank(c) <==> c in WHITESPACE
    ensures Symbol(c) <==> c in SYMBOLS
  {
    assert WHITESPACE[0] == ' ' && WHITESPACE[1] == '\t' && WHITESPACE[2] == '\r' && WHITESPACE[3] == '\n';
    assert SYMBOLS[0] == '<' && SYMBOLS[1] == '|' && SYMBOLS[2] == '>' && SYMBOLS[3] == '&' && SYMBOLS[4] == ';';
  }

  /** Words are made of the other characters, and are not empty. */
  lemma GoodIff(t: Tok)
    ensures GoodTok(t) <==> match t {
              case Word(w) => w != "" && forall c :: c in w ==> c !in WHITESPACE && c !in SYMBOLS && c != '\0'
              case Sym(c) => c in SYMBOLS || c == '+'
            }
  {
    match t
    case Word(w) =>
      forall c | c in w
        ensures Letter(c) <==> c !in WHITESPACE && c !in SYMBOLS && c != '\0'
      {
        Tables(c);
      }
      assert forall i :: 0 <= i < |w| ==> w[i] in w;
    case Sym(c) => Tables(c);
  }

  ghost predicate MayTouch(a: Tok, b: Tok) {
    !(a.Word? && b.Word?) && !(a == Sym('>') && (b == Sym('>') || b == Sym('+')))
  }

  /** Blanks before, between and behind the tokens. */
  ghost predicate Gaps(toks: seq<Tok>, gaps: seq<string>) {
    && |gaps| == |toks| + 1 && (forall i {:trigger gaps[i]} :: 0 <= i < |gaps| ==> Blanks(gaps[i]))
    && forall i {:trigger gaps[i]} :: 0 < i < |toks| && gaps[i] == "" ==> MayTouch(toks[i - 1], toks[i])
  }

  function Layout(toks: seq<Tok>, gaps: seq<string>): string
    requires |gaps| == |toks| + 1
  {
    if toks == [] then gaps[0] else gaps[0] + Spell(toks[0]) + Layout(toks[1..], gaps[1..])
  }

  // ---- a line is read as it was laid out ----

  lemma LayoutStarts(toks: seq<Tok>, gaps: seq<string>, t: Tok)
    requires GoodToks(toks) && |gaps| == |toks| + 1 && Blanks(gaps[0])
    requires toks != [] && gaps[0] == "" ==> MayTouch(t, toks[0])
    ensures EndsBefore(t, Layout(toks, gaps))
  {
    if toks != [] && gaps[0] == "" {
      assert GoodTok(toks[0]);
      assert Layout(toks, gaps)[0] == Spell(toks[0])[0];
    }
  }

  lemma GapsTail(toks: seq<Tok>, gaps: seq<string>)
    requires toks != [] && Gaps(toks, gaps)
    ensures Gaps(toks[1..], gaps[1..])
    ensures |toks| > 1 && gaps[1] == "" ==> MayTouch(toks[0], toks[1])
  {
    var us, hs := toks[1..], gaps[1..];
    forall i {:trigger hs[i]} | 0 <= i < |hs|
      ensures Blanks(hs[i])
    {
      assert hs[i] == gaps[i + 1];
    }
    forall i {:trigger hs[i]} | 0 < i < |us| && hs[i] == ""
      ensures MayTouch(us[i - 1], us[i])
    {
      assert hs[i] == gaps[i + 1] && us[i - 1] == toks[i] && us[i] == toks[i + 1];
    }
  }

  lemma LexNext(gap: string, t: Tok, rest: string)
    requires Blanks(gap) && GoodTok(t) && EndsBefore(t, rest) && IsText(rest)
    ensures IsText(gap + Spell(t) + rest) && Lex(gap + Spell(t) + rest, 0) == [t] + Lex(rest, 0)
  {
    LexTok(t, rest);
    LexBlanks(gap, Spell(t) + rest);
    Assoc(gap, Spell(t), rest);
  }

  /** Whatever blanks are put between the tokens, also none where they may touch, the lexer finds these tokens. */
  lemma {:induction false} LexLayout(toks: seq<Tok>, gaps: seq<string>)
    requires GoodToks(toks) && Gaps(toks, gaps)
    ensures IsText(Layout(toks, gaps)) && Lex(Layout(toks, gaps), 0) == toks
    decreases |toks|
  {
    if toks == [] {
      assert gaps[0] + "" == gaps[0];
      LexBlanks(gaps[0], "");
    } else {
      GapsTail(toks, gaps);
      LexLayout(toks[1..], gaps[1..]);
      LayoutStarts(toks[1..], gaps[1..], toks[0]);
      LexNext(gaps[0], toks[0], Layout(toks[1..], gaps[1..]));
    }
  }

  // ---- and every line is laid out so ----

  lemma {:induction false} SkipsBlanks(buf: string, i: nat)
    requires i <= |buf|
    ensures Blanks(buf[i..Skip(buf, i)])
    decreases |buf| - i
  {
    if i < |buf| && Blank(buf[i]) {
      SkipsBlanks(buf, i + 1);
      var j := Skip(buf, i);
      assert buf[i..j] == [buf[i]] + buf[i + 1..j];
    }
  }

  lemma SpellAt(buf: string, j: nat)
    requires j < |buf| && !Blank(buf[j]) && buf[j] != '\0'
    ensures Spell(TokAt(buf, j)) == buf[j..TokEnd(buf, j)]
  {}

  lemma TouchAt(buf: string, j: nat)
    requires IsText(buf) && j < |buf| && !Blank(buf[j])
    ensures var e := TokEnd(buf, j);
            e < |buf| && !Blank(buf[e]) ==> MayTouch(TokAt(buf, j), TokAt(buf, e))
  {}

  /** Nothing of a line is lost, and nothing is added: it is its tokens, laid out with some blanks. */
  lemma {:induction false} LineIsLayout(buf: string, i: nat) returns (gaps: seq<string>)
    requires IsText(buf) && i <= |buf|
    ensures Gaps(Lex(buf, i), gaps) && Layout(Lex(buf, i), gaps) == buf[i..]
    ensures gaps[0] == buf[i..Skip(buf, i)]
    decreases |buf| - i
  {
    var j := Skip(buf, i);
    SkipsBlanks(buf, i);
    if j == |buf| {
      gaps := [buf[i..]];
    } else {
      var e := TokEnd(buf, j);
      var rest := LineIsLayout(buf, e);
      gaps := [buf[i..j]] + rest;
      SpellAt(buf, j);
      TouchAt(buf, j);
      LayoutMore(TokAt(buf, j), Lex(buf, e), buf[i..j], rest);
      Slices(buf, i, j, e);
      GapsMore(TokAt(buf, j), Lex(buf, e), buf[i..j], rest);
    }
  }

  lemma LayoutMore(t: Tok, toks: seq<Tok>, gap: string, gaps: seq<string>)
    requires |gaps| == |toks| + 1
    ensures Layout([t] + toks, [gap] + gaps) == gap + Spell(t) + Layout(toks, gaps)
  {
    assert ([t] + toks)[1..] == toks && ([gap] + gaps)[1..] == gaps;
  }

  lemma Slices(buf: string, i: nat, j: nat, e: nat)
    requires i <= j <= e <= |buf|
    ensures buf[i..] == buf[i..j] + buf[j..e] + buf[e..]
  {}

  lemma GapsMore(t: Tok, toks: seq<Tok>, gap: string, gaps: seq<string>)
    requires Gaps(toks, gaps) && Blanks(gap) && (toks != [] && gaps[0] == "" ==> MayTouch(t, toks[0]))
    ensures Gaps([t] + toks, [gap] + gaps)
  {
    var us, hs := [t] + toks, [gap] + gaps;
    forall i {:trigger hs[i]} | 0 < i < |us| && hs[i] == ""
      ensures MayTouch(us[i - 1], us[i])
    {
      assert hs[i] == gaps[i - 1] && us[i] == toks[i - 1];
      if i > 1 {
        assert us[i - 1] == toks[i - 2];
      }
    }
  }

  // ---- so the tokens spell the line ----

  function Kept(c: char): string {
    if Blank(c) then "" else [c]
  }

  function NonBlank(buf: string): string {
    if buf == "" then "" else Kept(buf[0]) + NonBlank(buf[1..])
  }

  function Spelling(toks: seq<Tok>): string {
    if toks == [] then "" else Spell(toks[0]) + Spelling(toks[1..])
  }

  lemma {:induction false} NonBlankConcat(a: string, b: string)
    ensures NonBlank(a + b) == NonBlank(a) + NonBlank(b)
    decreases |a|
  {
    if a == "" {
      assert a + b == b;
    } else {
      NonBlankConcat(a[1..], b);
      assert (a + b)[1..] == a[1..] + b;
      Assoc(Kept(a[0]), NonBlank(a[1..]), NonBlank(b));
    }
  }

  lemma {:induction false} NonBlankOf(w: string)
    ensures Blanks(w) ==> NonBlank(w) == ""
    ensures (forall k :: 0 <= k < |w| ==> !Blank(w[k])) ==> NonBlank(w) == w
  {
    if w != "" {
      NonBlankOf(w[1..]);
    }
  }

  lemma SpelledBehind(gap: string, t: Tok)
    requires Blanks(gap) && GoodTok(t)
    ensures NonBlank(gap + Spell(t)) == Spell(t)
  {
    NonBlankOf(gap);
    NonBlankOf(Spell(t));
    NonBlankConcat(gap, Spell(t));
  }

  lemma SpellsNext(gap: string, t: Tok, rest: string)
    requires Blanks(gap) && GoodTok(t)
    ensures NonBlank(gap + Spell(t) + rest) == Spell(t) + NonBlank(rest)
  {
    SpelledBehind(gap, t);
    NonBlankConcat(gap + Spell(t), rest);
  }

  lemma {:induction false} LayoutSpells(toks: seq<Tok>, gaps: seq<string>)
    requires GoodToks(toks) && Gaps(toks, gaps)
    ensures NonBlank(Layout(toks, gaps)) == Spelling(toks)
    decreases |toks|
  {
    if toks == [] {
      NonBlankOf(gaps[0]);
    } else {
      GapsTail(toks, gaps);
      LayoutSpells(toks[1..], gaps[1..]);
      SpellsNext(gaps[0], toks[0], Layout(toks[1..], gaps[1..]));
    }
  }

  /** The tokens of a line, put together, are its characters but for the blanks. */
  lemma LexSpells(buf: string)
    requires IsText(buf)
    ensures Spelling(Lex(buf, 0)) == NonBlank(buf)
  {
    var gaps := LineIsLayout(buf, 0);
    LexGood(buf, 0);
    LayoutSpells(Lex(buf, 0), gaps);
    assert buf[0..] == buf;
  }

  // ---- what lines mean ----

  /** The line is the syntax tree l, laid out with blanks. */
  ghost predicate Writes(line: string, l: Line, gaps: seq<string>) {
    GoodLine(l) && GoodToks(LineToks(l)) && Gaps(LineToks(l), gaps) && Layout(LineToks(l), gaps) == line
  }

  lemma WrittenParses(line: string, l: Line, gaps: seq<string>)
    requires Writes(line, l, gaps)
    ensures ParsesTo(line, LineTree(l))
  {
    LexLayout(LineToks(l), gaps);
    ParsesIff(LineToks(l), LineTree(l));
  }

  lemma ParsedIsWritten(line: string, c: Cmd<string>) returns (l: Line, gaps: seq<string>)
    requires ParsesTo(line, c)
    ensures Writes(line, l, gaps) && LineTree(l) == c
  {
    ParsesIff(Lex(line, 0), c);
    l :| GoodLine(l) && LineToks(l) == Lex(line, 0) && LineTree(l) == c;
    gaps := LineIsLayout(line, 0);
    LexGood(line, 0);
    assert line[0..] == line;
  }

  /** On characters: a line parses to c if and only if it is laid out from a syntax tree of the grammar that means c. */
  lemma LineMeans(line: string, c: Cmd<string>)
    ensures ParsesTo(line, c) <==> exists l, gaps :: Writes(line, l, gaps) && LineTree(l) == c
  {
    if ParsesTo(line, c) {
      var l, gaps := ParsedIsWritten(line, c);
    }
    if l, gaps :| Writes(line, l, gaps) && LineTree(l) == c {
      WrittenParses(line, l, gaps);
    }
  }
}
