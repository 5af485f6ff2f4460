/** How sh.c cuts a line into tokens, and that the tokens of a printed line are the ones printed. */
module ShellLex {
  import opened ShellGrammar

  const WHITESPACE: string := " \t\r\n\U{0B}"
  const SYMBOLS: string := "<|>&;()"

  /** The line up to its NUL. */
  type Line = s: string | '\0' !in s

  /** A token's place, from its first byte to the one after its last. */
  datatype Span = Span(q: nat, eq: nat)

  predicate WordChar(c: char) {
    c !in WHITESPACE && c !in SYMBOLS
  }

  function Skip(text: Line, i: nat): (j: nat)
    requires i <= |text|
    ensures i <= j <= |text| && (j < |text| ==> text[j] !in WHITESPACE)
    decreases |text| - i
  {
    if i < |text| && text[i] in WHITESPACE then Skip(text, i + 1) else i
  }

  function WordEnd(text: Line, i: nat): (j: nat)
    requires i <= |text|
    ensures i <= j <= |text| && (j < |text| ==> !WordChar(text[j])) && forall k :: i <= k < j ==> WordChar(text[k])
    decreases |text| - i
  {
    if i < |text| && WordChar(text[i]) then WordEnd(text, i + 1) else i
  }

  /** The end of the token that starts at i. */
  function TokenEnd(text: Line, i: nat): (j: nat)
    requires i < |text| && text[i] !in WHITESPACE
    ensures i < j <= |text|
  {
    if text[i] == '>' && i + 1 < |text| && text[i + 1] == '>' then i + 2
    else if text[i] in SYMBOLS then i + 1
    else WordEnd(text, i)
  }

  function TokenAt(text: Line, i: nat): Token<Span>
    requires i < |text| && text[i] !in WHITESPACE
  {
    if text[i] == '>' && i + 1 < |text| && text[i + 1] == '>' then Sym('+')
    else if text[i] in SYMBOLS then Sym(text[i])
    else Word(Span(i, WordEnd(text, i)))
  }

  function Lex(text: Line, i: nat): seq<Token<Span>>
    requires i <= |text|
    decreases |text| - i
  {
    var j := Skip(text, i);
    if j == |text| then [] else [TokenAt(text, j)] + Lex(text, TokenEnd(text, j))
  }

  lemma {:induction false} LexSkip(text: Line, i: nat)
    requires i <= |text|
    ensures Lex(text, Skip(text, i)) == Lex(text, i)
  {
  }

  lemma {:induction false} WordEndIs(text: Line, i: nat, j: nat)
    requires i <= j <= |text| && (j < |text| ==> !WordChar(text[j])) && forall k :: i <= k < j ==> WordChar(text[k])
    ensures WordEnd(text, i) == j
  {
  }

  // ------------------------------------------------------------ what the tokens of a line are

  ghost predicate Blank(text: Line, i: nat, s: nat) {
    i <= s <= |text| && forall k :: i <= k < s ==> text[k] in WHITESPACE
  }

  /** The bytes from s to e spell t, and t is as long as can be. */
  ghost predicate Spells(text: Line, s: nat, e: nat, t: Token<Span>) {
    && s < e <= |text|
    && match t
       case Word(w) =>
         w == Span(s, e) && (forall k :: s <= k < e ==> WordChar(text[k])) && (e < |text| ==> !WordChar(text[e]))
       case Sym(c) =>
         && text[s..e] == (if c == '+' then ">>" else [c]) && (c == '+' || c in SYMBOLS)
         && (c == '>' && e < |text| ==> text[e] != '>')
  }

  ghost predicate ReadsFrom(text: Line, s: nat, toks: seq<Token<Span>>)
    requires toks != []
    decreases |toks|, 0
  {
    exists e :: Spells(text, s, e, toks[0]) && Reads(text, e, toks[1..])
  }

  /** From i on the line is these tokens, with blanks or nothing in front of, between and behind them. */
  ghost predicate Reads(text: Line, i: nat, toks: seq<Token<Span>>)
    decreases |toks|
  {
    exists s :: Blank(text, i, s) && if toks == [] then s == |text| else ReadsFrom(text, s, toks)
  }

  lemma {:induction false} SkipIs(text: Line, i: nat, s: nat)
    requires Blank(text, i, s) && (s < |text| ==> text[s] !in WHITESPACE)
    ensures Skip(text, i) == s
    decreases s - i
  {
    if i < s { SkipIs(text, i + 1, s); }
  }

  lemma {:induction false} SkipBlank(text: Line, i: nat)
    requires i <= |text|
    ensures Blank(text, i, Skip(text, i))
    decreases |text| - i
  {
    if i < |text| && text[i] in WHITESPACE { SkipBlank(text, i + 1); }
  }

  lemma {:induction false} TokenSpelled(text: Line, i: nat)
    requires i < |text| && text[i] !in WHITESPACE
    ensures Spells(text, i, TokenEnd(text, i), TokenAt(text, i))
  {
  }

  lemma {:induction false} SpelledToken(text: Line, s: nat, e: nat, t: Token<Span>)
    requires Spells(text, s, e, t)
    ensures text[s] !in WHITESPACE && TokenEnd(text, s) == e && TokenAt(text, s) == t
  {
    if t.Word? {
      WordEndIs(text, s, e);
    } else {
      assert text[s] == text[s..e][0];
      assert t.c == '+' ==> text[s + 1] == text[s..e][1];
    }
  }

  /** The tokens of a line are the only way to cut it, blanks aside, into words and symbols that are as long as
      they can be. */
  lemma {:induction false} LexReads(text: Line, i: nat, toks: seq<Token<Span>>)
    requires i <= |text|
    ensures Reads(text, i, toks) <==> toks == Lex(text, i)
    decreases |text| - i
  {
    var j := Skip(text, i);
    SkipBlank(text, i);
    if Reads(text, i, toks) {
      var s :| Blank(text, i, s) && if toks == [] then s == |text| else ReadsFrom(text, s, toks);
      if toks != [] {
        var e :| Spells(text, s, e, toks[0]) && Reads(text, e, toks[1..]);
        SpelledToken(text, s, e, toks[0]);
        LexReads(text, e, toks[1..]);
      }
      SkipIs(text, i, s);
    }
    if toks == Lex(text, i) && j < |text| {
      TokenSpelled(text, j);
      LexReads(text, TokenEnd(text, j), toks[1..]);
      assert ReadsFrom(text, j, toks);
    }
  }

  // ------------------------------------------------------------ words stay apart

  /** A word of the line: a longest run of word characters. */
  ghost predicate IsWord(text: Line, w: Span) {
    && w.q < w.eq <= |text|
    && (forall k :: w.q <= k < w.eq ==> WordChar(text[k]))
    && (w.eq < |text| ==> !WordChar(text[w.eq]))
  }

  ghost function WordsOf(text: Line): iset<Span> {
    iset w | IsWord(text, w)
  }

  lemma {:induction false} LexWords(text: Line, i: nat)
    requires i <= |text|
    ensures Within(Lex(text, i), WordsOf(text))
    decreases |text| - i
  {
    var j := Skip(text, i);
    if j < |text| {
      LexWords(text, TokenEnd(text, j));
    }
  }

  /** The byte after a word is no byte of any word. */
  lemma {:induction false} EndsOutside(text: Line, v: Span, w: Span)
    requires IsWord(text, v) && IsWord(text, w)
    ensures !(w.q <= v.eq < w.eq)
  {
  }

  // ------------------------------------------------------------ printing

  function Spell(t: Token<string>): string {
    match t
    case Word(w) => w
    case Sym(c) => if c == '+' then ">>" else [c]
  }

  /** The printed line: a blank after every token. */
  function Show(toks: seq<Token<string>>): string {
    if toks == [] then "" else Spell(toks[0]) + " " + Show(toks[1..])
  }

  predicate LegalWord(w: string) {
    w != "" && forall k :: 0 <= k < |w| ==> WordChar(w[k]) && w[k] != '\0'
  }

  predicate LegalToken(t: Token<string>) {
    match t
    case Word(w) => LegalWord(w)
    case Sym(c) => c == '+' || c in SYMBOLS
  }

  predicate Legal(toks: seq<Token<string>>) {
    forall i :: 0 <= i < |toks| ==> LegalToken(toks[i])
  }

  function TextOf(text: Line): Span -> string {
    (w: Span) => if w.q <= w.eq <= |text| then text[w.q..w.eq] else ""
  }

  lemma {:induction false} ShowLine(toks: seq<Token<string>>)
    requires Legal(toks)
    ensures '\0' !in Show(toks)
  {
    if toks != [] {
      assert LegalToken(toks[0]);
      ShowLine(toks[1..]);
    }
  }

  lemma {:induction false} TokenOne(text: Line, i: nat, t: Token<string>)
    requires LegalToken(t) && i + |Spell(t)| < |text|
    requires text[i..i + |Spell(t)|] == Spell(t) && text[i + |Spell(t)|] == ' '
    ensures text[i] !in WHITESPACE && TokenEnd(text, i) == i + |Spell(t)|
    ensures MapToken(TextOf(text), TokenAt(text, i)) == t
  {
    hide Lex, Skip;
    var n := |Spell(t)|;
    assert forall k :: 0 <= k < n ==> text[i + k] == Spell(t)[k];
    assert text[i] == Spell(t)[0];
    if t.Word? {
      forall k | i <= k < i + n ensures WordChar(text[k]) {
        assert text[k] == Spell(t)[k - i];
      }
      WordEndIs(text, i, i + n);
    }
  }

  /** One token and the blank behind it. */
  lemma {:induction false} LexOne(text: Line, i: nat, t: Token<string>)
    requires LegalToken(t) && i + |Spell(t)| < |text|
    requires text[i..i + |Spell(t)|] == Spell(t) && text[i + |Spell(t)|] == ' '
    ensures text[i] !in WHITESPACE && TokenEnd(text, i) == i + |Spell(t)|
    ensures MapToken(TextOf(text), TokenAt(text, i)) == t
    ensures Lex(text, i) == [TokenAt(text, i)] + Lex(text, i + |Spell(t)| + 1)
  {
    hide MapToken;
    TokenOne(text, i, t);
    assert Skip(text, i + |Spell(t)|) == Skip(text, i + |Spell(t)| + 1);
  }

  lemma {:induction false} LexNothing(text: Line)
    ensures MapTokens(TextOf(text), Lex(text, |text|)) == []
  {
  }

  lemma {:induction false} ShowFirst(pre: string, toks: seq<Token<string>>, text: Line)
    requires toks != [] && text == pre + Show(toks)
    ensures var i, n := |pre|, |Spell(toks[0])|;
            && i + n < |text| && text[i..i + n] == Spell(toks[0]) && text[i + n] == ' '
            && text == pre + Spell(toks[0]) + " " + Show(toks[1..])
  {
    hide Spell;
  }

  lemma {:induction false} MapCons<T, U>(f: T -> U, t: Token<T>, toks: seq<Token<T>>)
    ensures MapTokens(f, [t] + toks) == [MapToken(f, t)] + MapTokens(f, toks)
  {
  }

  /** Reading a printed line gives the tokens that were printed. */
  lemma {:induction false} LexShow(pre: string, toks: seq<Token<string>>, text: Line)
    requires Legal(toks) && text == pre + Show(toks)
    ensures MapTokens(TextOf(text), Lex(text, |pre|)) == toks
    decreases |toks|
  {
    hide Lex, TokenAt, LegalToken, MapToken, Spell, MapTokens;
    if toks == [] {
      LexNothing(text);
    } else {
      var t, n := toks[0], |Spell(toks[0])|;
      ShowFirst(pre, toks, text);
      LexOne(text, |pre|, t);
      LexShow(pre + Spell(t) + " ", toks[1..], text);
      MapCons(TextOf(text), TokenAt(text, |pre|), Lex(text, |pre| + n + 1));
    }
  }

  /** A command whose words a line can carry. */
  predicate Sayable(c: Cmd<string>) {
    match c
    case Exec(argv) => |argv| < MAXARGS && forall i :: 0 <= i < |argv| ==> LegalWord(argv[i])
    case Redir(cmd, to) => Sayable(cmd) && Standard(to) && LegalWord(to.file)
    case Pipe(left, right) => Sayable(left) && Sayable(right)
    case List(left, right) => Sayable(left) && Sayable(right)
    case Back(cmd) => Sayable(cmd)
  }

  lemma {:induction false} SayableBuildable(c: Cmd<string>)
    requires Sayable(c)
    ensures Buildable(c)
  {
    match c {
      case Exec(_) =>
      case Redir(cmd, _) => SayableBuildable(cmd);
      case Pipe(left, right) => SayableBuildable(left); SayableBuildable(right);
      case List(left, right) => SayableBuildable(left); SayableBuildable(right);
      case Back(cmd) => SayableBuildable(cmd);
    }
  }

  lemma {:induction false} WordsLegal(argv: seq<string>, k: seq<Token<string>>)
    requires Legal(k) && forall i :: 0 <= i < |argv| ==> LegalWord(argv[i])
    ensures Legal(PrintWords(argv, k))
  {
    if argv != [] {
      WordsLegal(argv[1..], k);
    }
  }

  lemma {:induction false} PrintLegal(c: Cmd<string>, level: nat, k: seq<Token<string>>)
    requires Sayable(c) && Legal(k)
    ensures Legal(Print(c, level, k))
    decreases c, 1
  {
    BareLegal(c, [Sym(')')] + k);
    BareLegal(c, k);
  }

  lemma {:induction false} BareLegal(c: Cmd<string>, k: seq<Token<string>>)
    requires Sayable(c) && Legal(k)
    ensures Legal(PrintBare(c, k))
    decreases c, 0
  {
    match c {
      case Exec(argv) => WordsLegal(argv, k);
      case Redir(cmd, to) =>
        assert PrintRedirs([to][1..], k) == k;
        PrintLegal(cmd, 3, PrintRedirs([to], k));
      case Pipe(left, right) => PrintLegal(right, 2, k); PrintLegal(left, 3, [Sym('|')] + Print(right, 2, k));
      case List(left, right) => PrintLegal(right, 0, k); PrintLegal(left, 1, [Sym(';')] + Print(right, 0, k));
      case Back(cmd) => PrintLegal(cmd, 1, [Sym('&')] + k);
    }
  }

  /** The line printed for a command parses to that command. */
  lemma {:induction false} RoundTrip(c: Cmd<string>)
    requires Sayable(c)
    ensures var text := Show(Print(c, 0, []));
            '\0' !in text && MapResult(TextOf(text), ParseAll(Lex(text, 0))) == Ok(c, [])
  {
    var toks := Print(c, 0, []);
    PrintLegal(c, 0, []);
    ShowLine(toks);
    var text: Line := Show(toks);
    assert text == "" + Show(toks);
    LexShow("", toks, text);
    SayableBuildable(c);
    LineBack(c, []);
    MapLine(TextOf(text), Lex(text, 0));
  }

  lemma {:induction false} WithinSayable(text: Line, c: Cmd<Span>)
    requires CmdWithin(c, WordsOf(text))
    ensures Sayable(MapCmd(TextOf(text), c))
  {
    match c {
      case Exec(argv) =>
        forall i | 0 <= i < |argv| ensures LegalWord(TextOf(text)(argv[i])) {
          assert IsWord(text, argv[i]);
        }
      case Redir(cmd, to) =>
        WithinSayable(text, cmd);
        assert IsWord(text, to.file);
      case Pipe(left, right) => WithinSayable(text, left); WithinSayable(text, right);
      case List(left, right) => WithinSayable(text, left); WithinSayable(text, right);
      case Back(cmd) => WithinSayable(text, cmd);
    }
  }

  ghost predicate ParsesTo(text: Line, c: Cmd<string>) {
    MapResult(TextOf(text), ParseAll(Lex(text, 0))) == Ok(c, [])
  }

  /** The commands that some line parses to are exactly those with legal words, fewer than MAXARGS of them
      each, and the two kinds of redirection. */
  lemma {:induction false} Expressible(c: Cmd<string>)
    ensures Sayable(c) <==> exists text: Line :: ParsesTo(text, c)
  {
    if Sayable(c) {
      RoundTrip(c);
      assert ParsesTo(Show(Print(c, 0, [])), c);
    }
    if text: Line :| ParsesTo(text, c) {
      LexWords(text, 0);
      LineWithin(Lex(text, 0), WordsOf(text));
      WithinSayable(text, ParseAll(Lex(text, 0)).cmd);
    }
  }
}
