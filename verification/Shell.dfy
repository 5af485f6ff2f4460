/** sh.c's parser with its cursor over the line, and nulterminate's writes into it. */
module Shell {
  import opened ShellGrammar
  import opened ShellLex
  import Syntax = ShellSyntax

  datatype Outcome = Parsed(cmd: Cmd<Span>) | Died(why: string)

  /** What gettoken returns for a token. */
  function Code(t: Token<Span>): char {
    match t
    case Word(_) => 'a'
    case Sym(c) => c
  }

  predicate Leads(toks: seq<Token<Span>>, among: string) {
    |toks| > 0 && toks[0].Sym? && (if toks[0].c == '+' then '>' else toks[0].c) in among
  }

  /** The method's outcome and cursor are the parser function's command and rest. */
  ghost predicate Agrees(text: Line, pos: nat, r: Result<Span>, o: Outcome) {
    && pos <= |text|
    && match r
       case Ok(cmd, rest) => o == Parsed(cmd) && Lex(text, pos) == rest
       case Panic(why) => o == Died(why)
  }

  /** Up to the next stop there are words and redirections in any order; o is the command of these words with
      these redirections around it, or a panic if they are malformed or too many. */
  ghost predicate SimpleOutcome(toks: seq<Token<Span>>, o: Outcome) {
    var b := Syntax.UpToStop(toks);
    && (o.Parsed? <==> Syntax.Interleaved(b) && |Syntax.Plain(b)| < MAXARGS)
    && (o.Parsed? ==> o.cmd == Wrap(Exec(Syntax.Plain(b)), Syntax.Redirections(b)))
  }

  lemma {:induction false} SimpleAgrees(text: Line, pos: nat, toks: seq<Token<Span>>, o: Outcome)
    requires !Starts(toks, "(") && Agrees(text, pos, ParseExec(toks), o)
    ensures SimpleOutcome(toks, o)
  {
    hide Lex, ParseExec;
    Syntax.SimpleCommand(toks);
  }

  lemma {:induction false} BlockAgrees(toks: seq<Token<Span>>)
    requires Starts(toks, "(")
    ensures ParseExec(toks) == ParseBlock(toks)
  {
  }

  function Prepend(list: seq<Redirect<Span>>, r: Redirects<Span>): Redirects<Span> {
    match r
    case NoFile => NoFile
    case Redirects(more, rest) => Redirects(list + more, rest)
  }

  lemma {:induction false} PrependOne(list: seq<Redirect<Span>>, to: Redirect<Span>, r: Redirects<Span>)
    ensures Prepend(list + [to], r) == Prepend(list, Prepend([to], r))
  {
    if r.Redirects? {
      assert list + [to] + r.list == list + ([to] + r.list);
    }
  }

  class Parser {
    const text: Line
    var pos: nat

    constructor (text: Line)
      ensures this.text == text && pos == 0
    {
      this.text, pos := text, 0;
    }

    method SkipBlanks(i: nat) returns (s: nat)
      requires i <= |text|
      ensures s == Skip(text, i)
    {
      s := i;
      while s < |text| && text[s] in WHITESPACE
        invariant s <= |text| && Skip(text, s) == Skip(text, i)
      {
        s := s + 1;
      }
    }

    method Gettoken() returns (tok: char, q: nat, eq: nat)
      requires pos <= |text|
      modifies this
      ensures pos <= |text|
      ensures var l := Lex(text, old(pos));
              if l == [] then tok == '\0' && Lex(text, pos) == []
              else tok == Code(l[0]) && Lex(text, pos) == l[1..] && (l[0].Word? ==> l[0].w == Span(q, eq))
                   && (l[0].Word? <==> tok == 'a') && tok != '\0'
    {
      var s := SkipBlanks(pos);
      q := s;
      if s == |text| {
        tok := '\0';
      } else if text[s] in "|();&<" {
        tok := text[s];
        s := s + 1;
      } else if text[s] == '>' {
        tok := text[s];
        s := s + 1;
        if s < |text| && text[s] == '>' {
          tok := '+';
          s := s + 1;
        }
      } else {
        tok := 'a';
        while s < |text| && text[s] !in WHITESPACE && text[s] !in SYMBOLS
          invariant q <= s <= |text| && WordEnd(text, s) == WordEnd(text, q) && pos == old(pos)
        {
          s := s + 1;
        }
      }
      eq := s;
      assert q < |text| ==> eq == TokenEnd(text, q) && tok == Code(TokenAt(text, q));
      s := SkipBlanks(s);
      LexSkip(text, eq);
      pos := s;
    }

    method Peek(toks: string) returns (b: bool)
      requires pos <= |text| && forall c :: c in toks ==> c in SYMBOLS
      modifies this
      ensures pos == Skip(text, old(pos)) && Lex(text, pos) == Lex(text, old(pos))
      ensures b <==> Leads(Lex(text, pos), toks)
    {
      var s := SkipBlanks(pos);
      LexSkip(text, pos);
      pos := s;
      b := s < |text| && text[s] in toks;
    }

    method Parseredirs() returns (ok: bool, list: seq<Redirect<Span>>)
      requires pos <= |text|
      modifies this
      ensures pos <= |text|
      ensures match ParseRedirs(Lex(text, old(pos)))
              case NoFile => !ok
              case Redirects(l, rest) => ok && list == l && Lex(text, pos) == rest
    {
      hide Lex;
      list := [];
      while true
        invariant pos <= |text| && ParseRedirs(Lex(text, old(pos))) == Prepend(list, ParseRedirs(Lex(text, pos)))
        decreases |Lex(text, pos)|
      {
        var more := Peek("<>");
        if !more {
          break;
        }
        ghost var l, list0 := Lex(text, pos), list;
        var tok, _, _ := Gettoken();
        var word, q, eq := Gettoken();
        if word != 'a' {
          return false, [];
        }
        assert l[1..][1..] == l[2..];
        if tok == '<' {
          list := list + [Redirect(Span(q, eq), O_RDONLY, 0)];
        } else {
          list := list + [Redirect(Span(q, eq), O_WRONLY + O_CREATE, 1)];
        }
        PrependOne(list0, Direction(l[0].c, l[1].w), ParseRedirs(l[2..]));
      }
      return true, list;
    }

    method Parseblock() returns (o: Outcome)
      requires pos <= |text|
      modifies this
      ensures Agrees(text, pos, ParseBlock(Lex(text, old(pos))), o)
      decreases |Lex(text, pos)|, 0
    {
      hide Lex;
      var open := Peek("(");
      if !open {
        return Died("parseblock");
      }
      var _, _, _ := Gettoken();
      o := Parseline();
      if o.Died? {
        return;
      }
      var closed := Peek(")");
      if !closed {
        return Died("syntax - missing )");
      }
      var _, _, _ := Gettoken();
      var ok, list := Parseredirs();
      if !ok {
        return Died("missing file for redirection");
      }
      return Parsed(Wrap(o.cmd, list));
    }

    /** parseexec without parentheses: the words collect in argv and the redirections around them in list. */
    method Parsesimple() returns (o: Outcome)
      requires pos <= |text| && !Starts(Lex(text, pos), "(")
      modifies this
      ensures Agrees(text, pos, ParseExec(Lex(text, old(pos))), o)
    {
      hide Lex;
      var argv: seq<Span> := [];
      var ok, list := Parseredirs();
      if !ok {
        return Died("missing file for redirection");
      }
      while true
        invariant pos <= |text| && |argv| < MAXARGS
        invariant ParseExec(Lex(text, old(pos))) == ParseArgs(argv, list, Lex(text, pos))
        decreases |Lex(text, pos)|
      {
        var end := Peek("|)&;");
        if end {
          break;
        }
        var tok, q, eq := Gettoken();
        if tok == '\0' {
          break;
        }
        if tok != 'a' {
          return Died("syntax");
        }
        argv := argv + [Span(q, eq)];
        if |argv| >= MAXARGS {
          return Died("too many args");
        }
        var more;
        ok, more := Parseredirs();
        if !ok {
          return Died("missing file for redirection");
        }
        list := list + more;
      }
      return Parsed(Wrap(Exec(argv), list));
    }

    method Parseexec() returns (o: Outcome)
      requires pos <= |text|
      modifies this
      ensures Agrees(text, pos, ParseExec(Lex(text, old(pos))), o)
      ensures !Starts(Lex(text, old(pos)), "(") ==> SimpleOutcome(Lex(text, old(pos)), o)
      decreases |Lex(text, pos)|, 1
    {
      hide Lex, SimpleOutcome, ParseExec;
      var block := Peek("(");
      ghost var toks := Lex(text, pos);
      if block {
        o := Parseblock();
        BlockAgrees(toks);
      } else {
        o := Parsesimple();
        SimpleAgrees(text, pos, toks, o);
      }
    }

    method Parsepipe() returns (o: Outcome)
      requires pos <= |text|
      modifies this
      ensures Agrees(text, pos, ParsePipe(Lex(text, old(pos))), o)
      decreases |Lex(text, pos)|, 2
    {
      hide Lex;
      o := Parseexec();
      if o.Died? {
        return;
      }
      var more := Peek("|");
      if more {
        var _, _, _ := Gettoken();
        var right := Parsepipe();
        if right.Died? {
          return right;
        }
        o := Parsed(Pipe(o.cmd, right.cmd));
      }
    }

    method Parseline() returns (o: Outcome)
      requires pos <= |text|
      modifies this
      ensures Agrees(text, pos, ParseLine(Lex(text, old(pos))), o)
      decreases |Lex(text, pos)|, 3
    {
      hide Lex;
      o := Parsepipe();
      if o.Died? {
        return;
      }
      ghost var first := ParseBacks(o.cmd, Lex(text, pos));
      while true
        invariant pos <= |text| && o.Parsed? && ParseBacks(o.cmd, Lex(text, pos)) == first
        decreases |Lex(text, pos)|
      {
        var back := Peek("&");
        if !back {
          break;
        }
        var _, _, _ := Gettoken();
        o := Parsed(Back(o.cmd));
      }
      var more := Peek(";");
      if more {
        var _, _, _ := Gettoken();
        var right := Parseline();
        if right.Died? {
          return right;
        }
        o := Parsed(List(o.cmd, right.cmd));
      }
    }
  }

  // ------------------------------------------------------------ NUL termination

  ghost function Ends(c: Cmd<Span>): set<nat> {
    match c
    case Exec(argv) => set w | w in argv :: w.eq
    case Redir(cmd, to) => Ends(cmd) + {to.file.eq}
    case Pipe(left, right) => Ends(left) + Ends(right)
    case List(left, right) => Ends(left) + Ends(right)
    case Back(cmd) => Ends(cmd)
  }

  ghost function Words(c: Cmd<Span>): set<Span> {
    match c
    case Exec(argv) => set w | w in argv
    case Redir(cmd, to) => Words(cmd) + {to.file}
    case Pipe(left, right) => Words(left) + Words(right)
    case List(left, right) => Words(left) + Words(right)
    case Back(cmd) => Words(cmd)
  }

  function Zeroed(s: string, at: set<nat>): (r: string)
    ensures |r| == |s| && forall i :: 0 <= i < |s| ==> r[i] == if i in at then '\0' else s[i]
  {
    seq(|s|, i requires 0 <= i < |s| => if i in at then '\0' else s[i])
  }

  lemma {:induction false} ZeroedTwice(s: string, a: set<nat>, b: set<nat>)
    ensures Zeroed(Zeroed(s, a), b) == Zeroed(s, a + b)
  {
  }

  /** nulterminate writes a NUL behind each word of the command and nowhere else. */
  method Nulterminate(c: Cmd<Span>, buf: array<char>)
    requires forall e :: e in Ends(c) ==> e < buf.Length
    modifies buf
    ensures buf[..] == Zeroed(old(buf[..]), Ends(c))
    decreases c
  {
    ghost var s := buf[..];
    match c {
      case Exec(argv) =>
        for i := 0 to |argv|
          invariant buf[..] == Zeroed(s, set w | w in argv[..i] :: w.eq)
        {
          assert argv[i] in argv && argv[i].eq in Ends(c);
          ghost var before := set w | w in argv[..i] :: w.eq;
          assert argv[..i + 1] == argv[..i] + [argv[i]];
          assert (set w | w in argv[..i + 1] :: w.eq) == before + {argv[i].eq};
          buf[argv[i].eq] := '\0';
          assert buf[..] == Zeroed(Zeroed(s, before), {argv[i].eq});
          ZeroedTwice(s, before, {argv[i].eq});
        }
        assert argv[..|argv|] == argv;
      case Redir(cmd, to) =>
        assert Ends(c) == Ends(cmd) + {to.file.eq};
        Nulterminate(cmd, buf);
        buf[to.file.eq] := '\0';
      case Pipe(left, right) =>
        assert Ends(c) == Ends(left) + Ends(right);
        Nulterminate(left, buf);
        Nulterminate(right, buf);
        ZeroedTwice(s, Ends(left), Ends(right));
      case List(left, right) =>
        assert Ends(c) == Ends(left) + Ends(right);
        Nulterminate(left, buf);
        Nulterminate(right, buf);
        ZeroedTwice(s, Ends(left), Ends(right));
      case Back(cmd) =>
        assert Ends(c) == Ends(cmd);
        Nulterminate(cmd, buf);
    }
  }

  /** The C string at q is w. */
  ghost predicate ReadsAs(buf: string, q: nat, w: string) {
    q + |w| < |buf| && buf[q..q + |w|] == w && buf[q + |w|] == '\0' && '\0' !in w
  }

  /** Every end is the end of one of the words, and all words are words of the line. */
  lemma {:induction false} EndsAreWords(text: Line, c: Cmd<Span>)
    requires CmdWithin(c, WordsOf(text))
    ensures forall w :: w in Words(c) ==> IsWord(text, w) && w.eq in Ends(c)
    ensures forall e :: e in Ends(c) ==> exists w :: w in Words(c) && w.eq == e
  {
    match c {
      case Exec(argv) =>
      case Redir(cmd, to) => EndsAreWords(text, cmd); assert to.file in Words(c) && IsWord(text, to.file);
      case Pipe(left, right) => EndsAreWords(text, left); EndsAreWords(text, right);
      case List(left, right) => EndsAreWords(text, left); EndsAreWords(text, right);
      case Back(cmd) => EndsAreWords(text, cmd);
    }
  }

  /** After nulterminate every word of the command reads as it stood in the line: no NUL falls on a byte of
      any word. */
  lemma {:induction false} Terminated(text: Line, tail: string, c: Cmd<Span>, w: Span)
    requires CmdWithin(c, WordsOf(text)) && w in Words(c)
    ensures ReadsAs(Zeroed(text + "\0" + tail, Ends(c)), w.q, TextOf(text)(w))
  {
    EndsAreWords(text, c);
    var buf := Zeroed(text + "\0" + tail, Ends(c));
    assert IsWord(text, w) && buf[w.eq] == '\0';
    forall k | w.q <= k < w.eq ensures buf[k] == text[k] {
      if k in Ends(c) {
        var v :| v in Words(c) && v.eq == k;
        EndsOutside(text, v, w);
      }
    }
    assert buf[w.q..w.eq] == text[w.q..w.eq];
  }

  lemma {:induction false} EndsInside(text: Line, c: Cmd<Span>)
    requires CmdWithin(c, WordsOf(text))
    ensures forall e :: e in Ends(c) ==> e <= |text|
  {
    EndsAreWords(text, c);
  }

  lemma {:induction false} NothingLeft(text: Line, i: nat)
    requires i <= |text|
    ensures Lex(text, i) == [] <==> Skip(text, i) == |text|
  {
  }

  /** parsecmd on a buffer with a NUL at n: the parse of the line up to there, each of its words readable as
      a C string, or the panic. */
  method Parsecmd(buf: array<char>, n: nat) returns (o: Outcome)
    requires n < buf.Length && buf[n] == '\0' && '\0' !in buf[..n]
    modifies buf
    ensures var text := old(buf[..n]);
            match ParseAll(Lex(text, 0))
            case Ok(cmd, _) =>
              o == Parsed(cmd) && forall w :: w in Words(cmd) ==> ReadsAs(buf[..], w.q, TextOf(text)(w))
            case Panic(why) => o == Died(why) && buf[..] == old(buf[..])
  {
    hide Lex, ParseLine, ReadsAs, CmdWithin, TextOf, Zeroed, WordsOf;
    ghost var before := buf[..];
    var text: Line := buf[..n];
    var p := new Parser(text);
    o := p.Parseline();
    if o.Died? {
      return;
    }
    NothingLeft(text, p.pos);
    var _ := p.Peek("");
    if p.pos != n {
      return Died("syntax");
    }
    LexWords(text, 0);
    LineWithin(Lex(text, 0), WordsOf(text));
    EndsInside(text, o.cmd);
    Nulterminate(o.cmd, buf);
    assert before == text + "\0" + before[n + 1..];
    forall w | w in Words(o.cmd) ensures ReadsAs(buf[..], w.q, TextOf(text)(w)) {
      Terminated(text, before[n + 1..], o.cmd, w);
    }
  }
}
