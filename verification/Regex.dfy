/** grep.c: the regular expression matcher, against what regular expressions mean. */
module Regex {

  /** A pattern is a list of items, to be found anywhere in the text, or, with $, at its end. */
  datatype Item = One(c: char) | Star(c: char)
  datatype Pattern = Pattern(items: seq<Item>, atEnd: bool)

  /** With ^, the pattern is to be found at the start of the text only. */
  datatype Search = Search(atStart: bool, pattern: Pattern)

  /** '.' stands for any character. */
  predicate Fits(c: char, x: char) {
    c == '.' || c == x
  }

  /** The items re is made of: * makes a repetition of the character before it, whatever that is; otherwise a $ at
  the very end stands for the end of the text; any other character is an item by itself. */
  ghost function Parse(re: string): Pattern
    decreases |re|
  {
    if re == "" then Pattern([], false)
    else if |re| > 1 && re[1] == '*' then
      var p := Parse(re[2..]);
      Pattern([Star(re[0])] + p.items, p.atEnd)
    else if re == "$" then Pattern([], true)
    else
      var p := Parse(re[1..]);
      Pattern([One(re[0])] + p.items, p.atEnd)
  }

  ghost function ParseSearch(re: string): Search {
    if re != "" && re[0] == '^' then Search(true, Parse(re[1..])) else Search(false, Parse(re))
  }

  // ---- how patterns are written ----

  function ShowItem(i: Item): string {
    match i
    case One(c) => [c]
    case Star(c) => [c, '*']
  }

  function Show(p: Pattern): string
    decreases |p.items|
  {
    if p.items == [] then if p.atEnd then "$" else ""
    else ShowItem(p.items[0]) + Show(Pattern(p.items[1..], p.atEnd))
  }

  function ShowSearch(s: Search): string {
    if s.atStart then "^" + Show(s.pattern) else Show(s.pattern)
  }

  /** A plain character before * would become a repetition, and a plain $ at the end the end of the text. */
  ghost predicate Writable(p: Pattern) {
    && (forall i :: 0 <= i < |p.items| - 1 && p.items[i].One? ==> p.items[i + 1].c != '*')
    && (p.items != [] && p.items[|p.items| - 1] == One('$') ==> p.atEnd)
  }

  /** A plain ^ at the start would become the start of the text. */
  ghost predicate SearchWritable(s: Search) {
    Writable(s.pattern) && (s.pattern.items != [] && s.pattern.items[0].c == '^' ==> s.atStart)
  }

  /** Nothing of the expression is lost: it is what its pattern is written as. */
  lemma {:induction false} ShowParse(re: string)
    ensures Show(Parse(re)) == re
    decreases |re|
  {
    if re == "" || re == "$" {
    } else if |re| > 1 && re[1] == '*' {
      ShowParse(re[2..]);
      ShowFirst(Star(re[0]), Parse(re[2..]));
    } else {
      ShowParse(re[1..]);
      ShowFirst(One(re[0]), Parse(re[1..]));
    }
  }

  lemma ShowFirst(i: Item, p: Pattern)
    ensures Show(Pattern([i] + p.items, p.atEnd)) == ShowItem(i) + Show(p)
  {
    assert ([i] + p.items)[1..] == p.items;
  }

  lemma {:induction false} ParseIsWritable(re: string)
    ensures Writable(Parse(re))
    ensures re != "" && re[0] != '*' && Parse(re).items != [] ==> Parse(re).items[0].c != '*'
    decreases |re|
  {
    if re == "" || re == "$" {
    } else if |re| > 1 && re[1] == '*' {
      ParseIsWritable(re[2..]);
    } else {
      ParseIsWritable(re[1..]);
    }
  }

  lemma ParseOne(c: char, re: string)
    requires (re != "" ==> re[0] != '*') && (re == "" ==> c != '$')
    ensures Parse([c] + re) == Pattern([One(c)] + Parse(re).items, Parse(re).atEnd)
  {
    assert ([c] + re)[1..] == re;
  }

  lemma ParseStar(c: char, re: string)
    ensures Parse([c, '*'] + re) == Pattern([Star(c)] + Parse(re).items, Parse(re).atEnd)
  {
    assert ([c, '*'] + re)[2..] == re;
  }

  lemma ShowStarts(p: Pattern)
    ensures Show(p) == "" <==> p.items == [] && !p.atEnd
    ensures p.items != [] ==> Show(p)[0] == p.items[0].c
  {}

  lemma {:induction false} ParseShown(p: Pattern)
    requires Writable(p)
    ensures Parse(Show(p)) == p
    decreases |p.items|
  {
    if p.items == [] {
    } else {
      var rest := Pattern(p.items[1..], p.atEnd);
      ParseShown(rest);
      ShowStarts(rest);
      assert p.items == [p.items[0]] + rest.items;
      match p.items[0]
      case One(c) => ParseOne(c, Show(rest));
      case Star(c) => ParseStar(c, Show(rest));
    }
  }

  /** Which patterns can be written: exactly these are what their written form means. */
  lemma ParseShow(p: Pattern)
    ensures Parse(Show(p)) == p <==> Writable(p)
  {
    ParseIsWritable(Show(p));
    if Writable(p) {
      ParseShown(p);
    }
  }

  lemma ShowParseSearch(re: string)
    ensures ShowSearch(ParseSearch(re)) == re
  {
    if re != "" && re[0] == '^' {
      ShowParse(re[1..]);
      assert re == "^" + re[1..];
    } else {
      ShowParse(re);
    }
  }

  lemma ParseShowSearch(s: Search)
    ensures ParseSearch(ShowSearch(s)) == s <==> SearchWritable(s)
  {
    ParseShow(s.pattern);
    if s.atStart {
      assert ("^" + Show(s.pattern))[1..] == Show(s.pattern);
    }
  }

  // ---- what items mean ----

  ghost predicate Spells(i: Item, w: string) {
    match i
    case One(c) => |w| == 1 && Fits(c, w[0])
    case Star(c) => forall k :: 0 <= k < |w| ==> Fits(c, w[k])
  }

  /** w is a word of the language: it splits into one piece for each item. */
  ghost predicate Word(items: seq<Item>, w: string)
    decreases |items|
  {
    if items == [] then w == ""
    else exists k :: 0 <= k <= |w| && Spells(items[0], w[..k]) && Word(items[1..], w[k..])
  }

  /** The text begins with a word, and ends with it if it must. */
  ghost predicate Begins(p: Pattern, text: string) {
    exists k :: 0 <= k <= |text| && (p.atEnd ==> k == |text|) && Word(p.items, text[..k])
  }

  /** Some part of the text is a word: from i on, with i at the start for ^, and up to the end for $. */
  ghost predicate Found(s: Search, text: string) {
    exists i :: 0 <= i <= |text| && (s.atStart ==> i == 0) && Begins(s.pattern, text[i..])
  }

  // ---- how a match begins ----

  lemma BeginsNothing(text: string, atEnd: bool)
    ensures Begins(Pattern([], atEnd), text) <==> !atEnd || text == ""
  {
    assert text[..0] == "";
    if !atEnd {
      assert Word([], text[..0]);
    }
    if Begins(Pattern([], atEnd), text) {
      var k :| 0 <= k <= |text| && (atEnd ==> k == |text|) && Word([], text[..k]);
      assert k == 0;
    }
  }

  lemma WordSplits(i: Item, items: seq<Item>, w: string) returns (m: nat)
    requires Word([i] + items, w)
    ensures m <= |w| && Spells(i, w[..m]) && Word(items, w[m..])
  {
    var all := [i] + items;
    assert all[0] == i && all[1..] == items;
    m :| 0 <= m <= |w| && Spells(all[0], w[..m]) && Word(all[1..], w[m..]);
  }

  lemma WordJoins(i: Item, items: seq<Item>, w: string, m: nat)
    requires m <= |w| && Spells(i, w[..m]) && Word(items, w[m..])
    ensures Word([i] + items, w)
  {
    var all := [i] + items;
    assert all[0] == i && all[1..] == items;
  }

  lemma Pieces(text: string, m: nat, k: nat)
    requires m <= k <= |text|
    ensures text[..k][..m] == text[..m] && text[..k][m..] == text[m..][..k - m]
  {}

  /** If the first item spells the first m characters and the rest of the text begins with the other items, ... */
  lemma BeginsWith(i: Item, p: Pattern, text: string, m: nat)
    requires m <= |text| && Spells(i, text[..m]) && Begins(p, text[m..])
    ensures Begins(Pattern([i] + p.items, p.atEnd), text)
  {
    var k :| 0 <= k <= |text[m..]| && (p.atEnd ==> k == |text[m..]|) && Word(p.items, text[m..][..k]);
    Pieces(text, m, m + k);
    WordJoins(i, p.items, text[..m + k], m);
  }

  /** ... and only then. */
  lemma BeginsSplits(i: Item, p: Pattern, text: string) returns (m: nat)
    requires Begins(Pattern([i] + p.items, p.atEnd), text)
    ensures m <= |text| && Spells(i, text[..m]) && Begins(p, text[m..])
  {
    var k :| 0 <= k <= |text| && (p.atEnd ==> k == |text|) && Word([i] + p.items, text[..k]);
    m := WordSplits(i, p.items, text[..k]);
    Pieces(text, m, k);
    assert Word(p.items, text[m..][..k - m]);
  }

  lemma BeginsOne(c: char, p: Pattern, text: string)
    ensures Begins(Pattern([One(c)] + p.items, p.atEnd), text) <==>
              text != "" && Fits(c, text[0]) && Begins(p, text[1..])
  {
    if Begins(Pattern([One(c)] + p.items, p.atEnd), text) {
      var m := BeginsSplits(One(c), p, text);
    }
    if text != "" && Fits(c, text[0]) && Begins(p, text[1..]) {
      BeginsWith(One(c), p, text, 1);
    }
  }

  ghost predicate Repeats(c: char, text: string, m: nat) {
    m <= |text| && forall k :: 0 <= k < m ==> Fits(c, text[k])
  }

  lemma BeginsStar(c: char, p: Pattern, text: string)
    ensures Begins(Pattern([Star(c)] + p.items, p.atEnd), text) <==>
              exists m: nat :: Repeats(c, text, m) && Begins(p, text[m..])
  {
    if Begins(Pattern([Star(c)] + p.items, p.atEnd), text) {
      var m := BeginsSplits(Star(c), p, text);
      assert forall k :: 0 <= k < m ==> text[..m][k] == text[k];
      assert Repeats(c, text, m);
    }
    if m: nat :| Repeats(c, text, m) && Begins(p, text[m..]) {
      BeginsWith(Star(c), p, text, m);
    }
  }

  // ---- the matcher ----

  /** matchhere: search for re at the beginning of text. */
  method MatchHere(re: string, text: string) returns (r: bool)
    ensures r <==> Begins(Parse(re), text)
    decreases |re|, 0
  {
    if re == "" {
      BeginsNothing(text, false);
      return true;
    }
    if |re| > 1 && re[1] == '*' {
      BeginsStar(re[0], Parse(re[2..]), text);
      r := MatchStar(re[0], re[2..], text);
      return;
    }
    if re == "$" {
      BeginsNothing(text, true);
      return text == "";
    }
    BeginsOne(re[0], Parse(re[1..]), text);
    if text != "" && (re[0] == '.' || re[0] == text[0]) {
      r := MatchHere(re[1..], text[1..]);
      return;
    }
    return false;
  }

  /** matchstar: search for c*re at the beginning of text. */
  method MatchStar(c: char, re: string, text: string) returns (r: bool)
    ensures r <==> exists m: nat :: Repeats(c, text, m) && Begins(Parse(re), text[m..])
    decreases |re|, 1
  {
    var i := 0;
    while true
      invariant Repeats(c, text, i)
      invariant forall m :: 0 <= m < i ==> !Begins(Parse(re), text[m..])
      decreases |text| - i
    {
      r := MatchHere(re, text[i..]);
      if r {
        return;
      }
      if !(i < |text| && (text[i] == c || c == '.')) {
        assert forall m: nat :: Repeats(c, text, m) ==> m <= i;
        return false;
      }
      i := i + 1;
    }
  }

  /** match: search for re anywhere in text. */
  method Match(re: string, text: string) returns (r: bool)
    ensures r <==> Found(ParseSearch(re), text)
  {
    if re != "" && re[0] == '^' {
      r := MatchHere(re[1..], text);
      assert text[0..] == text;
      return;
    }
    var i := 0;
    while true
      invariant 0 <= i <= |text| && forall k :: 0 <= k < i ==> !Begins(Parse(re), text[k..])
      decreases |text| - i
    {
      r := MatchHere(re, text[i..]);
      if r {
        return;
      }
      if i == |text| {
        return false;
      }
      i := i + 1;
    }
  }

  // ---- expressions without repetition, and with one ----

  function Ones(w: string): (items: seq<Item>)
    ensures |items| == |w| && forall i :: 0 <= i < |w| ==> items[i] == One(w[i])
  {
    seq(|w|, i requires 0 <= i < |w| => One(w[i]))
  }

  /** From position i on the text agrees with w, where '.' agrees with everything. */
  ghost predicate Agrees(w: string, text: string, i: nat) {
    i + |w| <= |text| && forall k {:trigger w[k]} :: 0 <= k < |w| ==> w[k] == '.' || w[k] == text[i + k]
  }

  lemma {:induction false} WordOfOnes(w: string, x: string)
    ensures Word(Ones(w), x) <==> |x| == |w| && Agrees(w, x, 0)
    decreases |w|
  {
    if w != "" {
      assert Ones(w) == [One(w[0])] + Ones(w[1..]);
      if Word(Ones(w), x) {
        var m := WordSplits(One(w[0]), Ones(w[1..]), x);
        WordOfOnes(w[1..], x[m..]);
        assert forall k :: 0 < k < |w| ==> w[k] == w[1..][k - 1];
      }
      if |x| == |w| && Agrees(w, x, 0) {
        WordOfOnes(w[1..], x[1..]);
        assert forall k :: 0 <= k < |w| - 1 ==> w[1..][k] == w[k + 1];
        WordJoins(One(w[0]), Ones(w[1..]), x, 1);
      }
    }
  }

  lemma {:induction false} ShowOnes(w: string, atEnd: bool)
    ensures Show(Pattern(Ones(w), atEnd)) == w + if atEnd then "$" else ""
    decreases |w|
  {
    if w != "" {
      ShowOnes(w[1..], atEnd);
      assert Ones(w)[1..] == Ones(w[1..]);
      assert w == [w[0]] + w[1..];
    }
  }

  lemma BeginsOnes(w: string, atEnd: bool, text: string)
    ensures Begins(Pattern(Ones(w), atEnd), text) <==> Agrees(w, text, 0) && (atEnd ==> |text| == |w|)
  {
    if Begins(Pattern(Ones(w), atEnd), text) {
      var k :| 0 <= k <= |text| && (atEnd ==> k == |text|) && Word(Ones(w), text[..k]);
      WordOfOnes(w, text[..k]);
    }
    if Agrees(w, text, 0) && (atEnd ==> |text| == |w|) {
      WordOfOnes(w, text[..|w|]);
    }
  }

  lemma FoundOnes(w: string, atStart: bool, atEnd: bool, text: string)
    ensures Found(Search(atStart, Pattern(Ones(w), atEnd)), text) <==>
            exists i :: 0 <= i && (atStart ==> i == 0) && (atEnd ==> i + |w| == |text|) && Agrees(w, text, i)
  {
    forall i | 0 <= i <= |text|
      ensures Begins(Pattern(Ones(w), atEnd), text[i..]) <==> Agrees(w, text, i) && (atEnd ==> i + |w| == |text|)
    {
      BeginsOnes(w, atEnd, text[i..]);
    }
  }

  lemma OnesWritable(w: string, atStart: bool, atEnd: bool)
    requires forall c :: c in w ==> c !in {'*', '$', '^'}
    ensures SearchWritable(Search(atStart, Pattern(Ones(w), atEnd))) == true
  {
    assert forall i :: 0 <= i < |w| ==> w[i] in w;
  }

  lemma ShowOnesSearch(w: string, atStart: bool, atEnd: bool)
    ensures ShowSearch(Search(atStart, Pattern(Ones(w), atEnd))) ==
            (if atStart then "^" else "") + w + (if atEnd then "$" else "")
  {
    ShowOnes(w, atEnd);
  }

  lemma ParsePlain(w: string, atStart: bool, atEnd: bool)
    requires forall c :: c in w ==> c !in {'*', '$', '^'}
    ensures ParseSearch((if atStart then "^" else "") + w + (if atEnd then "$" else "")) ==
            Search(atStart, Pattern(Ones(w), atEnd))
  {
    OnesWritable(w, atStart, atEnd);
    ParseShowSearch(Search(atStart, Pattern(Ones(w), atEnd)));
    ShowOnesSearch(w, atStart, atEnd);
  }

  /** An expression of characters and dots is found exactly where the text agrees with it; with ^ only at the start,
  with $ only at the end, and with both only if it is the whole text. */
  lemma FoundPlain(w: string, atStart: bool, atEnd: bool, text: string)
    requires forall c :: c in w ==> c !in {'*', '$', '^'}
    ensures Found(ParseSearch((if atStart then "^" else "") + w + (if atEnd then "$" else "")), text) <==>
            exists i :: 0 <= i && (atStart ==> i == 0) && (atEnd ==> i + |w| == |text|) && Agrees(w, text, i)
  {
    ParsePlain(w, atStart, atEnd);
    FoundOnes(w, atStart, atEnd, text);
  }

  /** ^c*$ is found exactly in the texts that consist of c only, and in all texts if c is a dot. */
  lemma FoundStar(c: char, text: string)
    ensures Found(ParseSearch(['^', c, '*', '$']), text) <==> c == '.' || forall x :: x in text ==> x == c
  {
    var end := Pattern([], true);
    var s := Search(true, Pattern([Star(c)], true));
    ShowFirst(Star(c), end);
    assert [Star(c)] + end.items == [Star(c)];
    assert ShowSearch(s) == ['^', c, '*', '$'];
    ParseShowSearch(s);
    assert text[0..] == text;
    BeginsStar(c, end, text);
    forall m: nat | m <= |text|
      ensures Begins(end, text[m..]) <==> m == |text|
    {
      BeginsNothing(text[m..], true);
    }
    assert forall k :: 0 <= k < |text| ==> text[k] in text;
    if c == '.' || forall x :: x in text ==> x == c {
      assert Repeats(c, text, |text|);
    }
  }
}
