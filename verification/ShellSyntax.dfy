/** The shell's language, given by syntax trees, and that the parser accepts exactly this language: every tree's
    tokens parse to the tree's command, and whatever parses has a tree. */
module ShellSyntax {
  import opened ShellGrammar

  // ------------------------------------------------------------ simple commands

  /** The tokens in front of the first symbol that ends a simple command. */
  function UpToStop<T>(toks: seq<Token<T>>): (b: seq<Token<T>>)
    ensures |b| <= |toks| && toks == b + toks[|b|..] && Stop(toks[|b|..])
  {
    if Stop(toks) then [] else [toks[0]] + UpToStop(toks[1..])
  }

  /** Words and redirections in any order, each redirection with its file. */
  predicate Interleaved<T>(b: seq<Token<T>>)
    decreases |b|
  {
    if b == [] then true
    else if b[0].Word? then Interleaved(b[1..])
    else Starts(b, "<>+") && |b| > 1 && b[1].Word? && Interleaved(b[2..])
  }

  /** The words that are not the file of a redirection, in order. */
  function Plain<T>(b: seq<Token<T>>): seq<T>
    decreases |b|
  {
    if b == [] then []
    else if b[0].Word? then [b[0].w] + Plain(b[1..])
    else if |b| > 1 then Plain(b[2..])
    else []
  }

  /** The redirections, in order; ">>" is read as ">". */
  function Redirections<T>(b: seq<Token<T>>): seq<Redirect<T>>
    decreases |b|
  {
    if b == [] then []
    else if b[0].Word? then Redirections(b[1..])
    else if |b| > 1 && b[1].Word? then
      var to := if b[0].c == '<' then Redirect(b[1].w, O_RDONLY, 0) else Redirect(b[1].w, O_WRONLY + O_CREATE, 1);
      [to] + Redirections(b[2..])
    else []
  }

  lemma {:induction false} Append<T>(a: seq<T>, b: seq<T>, c: seq<T>)
    ensures a + b + c == a + (b + c)
  {
  }

  lemma {:induction false} NextToken<T>(toks: seq<Token<T>>)
    requires !Stop(toks)
    ensures var b, c := UpToStop(toks), UpToStop(toks[1..]);
            b != [] && b[0] == toks[0] && b[1..] == c && toks[|b|..] == toks[1..][|c|..]
  {
  }

  lemma {:induction false} RedirRead<T>(toks: seq<Token<T>>)
    requires Starts(toks, "<>+") && |toks| > 1 && toks[1].Word?
    ensures var b, c := UpToStop(toks), UpToStop(toks[2..]);
            && Interleaved(b) == Interleaved(c) && Plain(b) == Plain(c) && toks[|b|..] == toks[2..][|c|..]
            && Redirections(b) == [Direction(toks[0].c, toks[1].w)] + Redirections(c)
  {
    var b := UpToStop(toks);
    NextToken(toks);
    NextToken(toks[1..]);
    hide UpToStop;
    assert toks[1..][1..] == toks[2..] && b[1..][1..] == b[2..];
  }

  lemma {:induction false} NoFileRead<T>(toks: seq<Token<T>>)
    requires Starts(toks, "<>+") && (|toks| == 1 || !toks[1].Word?)
    ensures !Interleaved(UpToStop(toks))
  {
    NextToken(toks);
  }

  /** A run of redirections is read up to the next word or stop. */
  lemma {:induction false} RedirsRead<T>(toks: seq<Token<T>>)
    ensures var r, b := ParseRedirs(toks), UpToStop(toks);
            match r
            case NoFile => !Interleaved(b)
            case Redirects(list, rest) =>
              var c := UpToStop(rest);
              && !Starts(rest, "<>+") && Interleaved(b) == Interleaved(c) && Plain(b) == Plain(c)
              && Redirections(b) == list + Redirections(c) && toks[|b|..] == rest[|c|..]
    decreases |toks|
  {
    hide UpToStop, Interleaved, Plain, Redirections;
    if !Starts(toks, "<>+") {
    } else if |toks| == 1 || !toks[1].Word? {
      NoFileRead(toks);
    } else {
      RedirRead(toks);
      RedirsRead(toks[2..]);
      var r := ParseRedirs(toks[2..]);
      if r.Redirects? {
        Append([Direction(toks[0].c, toks[1].w)], r.list, Redirections(UpToStop(r.rest)));
      }
    }
  }

  lemma {:induction false} ArgsRead<T>(argv: seq<T>, list: seq<Redirect<T>>, toks: seq<Token<T>>)
    requires !Starts(toks, "<>+") && |argv| < MAXARGS
    ensures var r, b := ParseArgs(argv, list, toks), UpToStop(toks);
            && (r.Ok? <==> Interleaved(b) && |argv| + |Plain(b)| < MAXARGS)
            && (r.Ok? ==> r == Ok(Wrap(Exec(argv + Plain(b)), list + Redirections(b)), toks[|b|..]))
    decreases |toks|
  {
    if Stop(toks) {
      assert argv + [] == argv && list + [] == list && toks[0..] == toks;
    } else {
      NextToken(toks);
      if toks[0].Word? && |argv| + 1 < MAXARGS {
        RedirsRead(toks[1..]);
        var r := ParseRedirs(toks[1..]);
        if r.Redirects? {
          ArgsRead(argv + [toks[0].w], list + r.list, r.rest);
          var c := UpToStop(r.rest);
          Append(argv, [toks[0].w], Plain(c));
          Append(list, r.list, Redirections(c));
        }
      }
    }
  }

  /** A simple command is everything up to the next stop. It parses exactly if it is words and redirections in
      any order with fewer than MAXARGS words, and is then the command of its words, in order, with its
      redirections around it, in order. */
  lemma {:induction false} SimpleCommand<T>(toks: seq<Token<T>>)
    requires !Starts(toks, "(")
    ensures var r, b := ParseExec(toks), UpToStop(toks);
            && (r.Ok? <==> Interleaved(b) && |Plain(b)| < MAXARGS)
            && (r.Ok? ==> r == Ok(Wrap(Exec(Plain(b)), Redirections(b)), toks[|b|..]))
  {
    RedirsRead(toks);
    var r := ParseRedirs(toks);
    if r.Redirects? {
      ArgsRead([], r.list, r.rest);
      assert [] + Plain(UpToStop(r.rest)) == Plain(UpToStop(r.rest));
    }
  }

  // ------------------------------------------------------------ syntax trees

  datatype Rest<T> = End | Then(line: Sequence<T>)

  /** Words and redirections, or a line in parentheses with redirections behind it. */
  datatype Simple<T> = Words(body: seq<Token<T>>) | Block(line: Sequence<T>, redirs: seq<Token<T>>)

  datatype Pipeline<T> = Last(exec: Simple<T>) | Bar(exec: Simple<T>, right: Pipeline<T>)

  datatype Sequence<T> = Sequence(pipe: Pipeline<T>, backs: nat, next: Rest<T>)

  predicate PipeOk<T>(p: Pipeline<T>) {
    SimpleOk(p.exec) && (p.Bar? ==> PipeOk(p.right))
  }

  predicate LineOk<T>(l: Sequence<T>) {
    PipeOk(l.pipe) && (l.next.Then? ==> LineOk(l.next.line))
  }

  predicate SimpleOk<T>(e: Simple<T>) {
    match e
    case Words(b) => Interleaved(b) && |Plain(b)| < MAXARGS
    case Block(l, b) => LineOk(l) && Interleaved(b) && Plain(b) == []
  }

  function Ampersands<T>(n: nat, k: seq<Token<T>>): seq<Token<T>> {
    if n == 0 then k else [Sym('&')] + Ampersands(n - 1, k)
  }

  function PipeTokens<T>(p: Pipeline<T>, k: seq<Token<T>>): seq<Token<T>>
    decreases p
  {
    match p
    case Last(e) => SimpleTokens(e, k)
    case Bar(e, right) => SimpleTokens(e, [Sym('|')] + PipeTokens(right, k))
  }

  function RestTokens<T>(r: Rest<T>, k: seq<Token<T>>): seq<Token<T>>
    decreases r
  {
    match r
    case End => k
    case Then(l) => [Sym(';')] + LineTokens(l, k)
  }

  function LineTokens<T>(l: Sequence<T>, k: seq<Token<T>>): seq<Token<T>>
    decreases l
  {
    PipeTokens(l.pipe, Ampersands(l.backs, RestTokens(l.next, k)))
  }

  /** The tokens of a tree, followed by k. */
  function SimpleTokens<T>(e: Simple<T>, k: seq<Token<T>>): seq<Token<T>>
    decreases e
  {
    match e
    case Words(b) => b + k
    case Block(l, b) => [Sym('(')] + LineTokens(l, [Sym(')')] + (b + k))
  }

  function Backs<T>(c: Cmd<T>, n: nat): Cmd<T> {
    if n == 0 then c else Back(Backs(c, n - 1))
  }

  function PipeMeans<T>(p: Pipeline<T>): Cmd<T> {
    match p
    case Last(e) => SimpleMeans(e)
    case Bar(e, right) => Pipe(SimpleMeans(e), PipeMeans(right))
  }

  function LineMeans<T>(l: Sequence<T>): Cmd<T> {
    var left := Backs(PipeMeans(l.pipe), l.backs);
    match l.next
    case End => left
    case Then(m) => List(left, LineMeans(m))
  }

  /** The command that a tree stands for. */
  function SimpleMeans<T>(e: Simple<T>): Cmd<T> {
    match e
    case Words(b) => Wrap(Exec(Plain(b)), Redirections(b))
    case Block(l, b) => Wrap(LineMeans(l), Redirections(b))
  }

  // ------------------------------------------------------------ every tree parses

  ghost predicate NoStop<T>(b: seq<Token<T>>) {
    forall i :: 0 <= i < |b| ==> b[i].Word? || b[i].c !in "|)&;("
  }

  lemma {:induction false} InterleavedNoStop<T>(b: seq<Token<T>>)
    requires Interleaved(b)
    ensures NoStop(b)
    decreases |b|
  {
    if b == [] {
    } else if b[0].Word? {
      InterleavedNoStop(b[1..]);
    } else {
      InterleavedNoStop(b[2..]);
      assert forall i :: 2 <= i < |b| ==> b[i] == b[2..][i - 2];
    }
  }

  lemma {:induction false} UpToEnd<T>(b: seq<Token<T>>, k: seq<Token<T>>)
    requires NoStop(b) && Stop(k)
    ensures UpToStop(b + k) == b && !Starts(b + k, "(") && (b + k)[|b|..] == k
    decreases |b|
  {
    if b == [] {
      assert b + k == k;
    } else {
      assert (b + k)[1..] == b[1..] + k;
      UpToEnd(b[1..], k);
    }
  }

  lemma {:induction false} NothingPlain<T>(b: seq<Token<T>>)
    requires Interleaved(b) && Plain(b) == [] && !Starts(b, "<>+")
    ensures b == []
  {
  }

  lemma {:induction false} RedirsParse<T>(b: seq<Token<T>>, k: seq<Token<T>>)
    requires Interleaved(b) && Plain(b) == [] && Stop(k)
    ensures ParseRedirs(b + k) == Redirects(Redirections(b), k)
  {
    InterleavedNoStop(b);
    UpToEnd(b, k);
    RedirsRead(b + k);
    var rest := ParseRedirs(b + k).rest;
    NothingPlain(UpToStop(rest));
  }

  lemma {:induction false} BackLast<T>(c: Cmd<T>, n: nat)
    ensures Backs(Back(c), n) == Back(Backs(c, n))
  {
    if n > 0 { BackLast(c, n - 1); }
  }

  lemma {:induction false} BacksParse<T>(c: Cmd<T>, n: nat, k: seq<Token<T>>)
    requires !Starts(k, "&")
    ensures ParseBacks(c, Ampersands(n, k)) == Ok(Backs(c, n), k)
    ensures Stop(k) && !Starts(k, "|") ==> Stop(Ampersands(n, k)) && !Starts(Ampersands(n, k), "|")
    decreases n
  {
    if n > 0 {
      Tail(Sym('&'), Ampersands(n - 1, k));
      BacksParse(Back(c), n - 1, k);
      BackLast(c, n - 1);
    }
  }

  lemma {:induction false} PipeParses<T>(p: Pipeline<T>, k: seq<Token<T>>)
    requires PipeOk(p) && Stop(k) && !Starts(k, "|")
    ensures ParsePipe(PipeTokens(p, k)) == Ok(PipeMeans(p), k)
    decreases p
  {
    match p
    case Last(e) => SimpleParses(e, k);
    case Bar(e, right) =>
      SimpleParses(e, [Sym('|')] + PipeTokens(right, k));
      Tail(Sym('|'), PipeTokens(right, k));
      PipeParses(right, k);
  }

  /** The tokens of every tree parse to its command: the parser knows the whole language. */
  lemma {:induction false} LineParses<T>(l: Sequence<T>, k: seq<Token<T>>)
    requires LineOk(l) && (k == [] || Starts(k, ")"))
    ensures ParseLine(LineTokens(l, k)) == Ok(LineMeans(l), k)
    decreases l
  {
    var rest := RestTokens(l.next, k);
    BacksParse(PipeMeans(l.pipe), l.backs, rest);
    PipeParses(l.pipe, Ampersands(l.backs, rest));
    if l.next.Then? {
      Tail(Sym(';'), LineTokens(l.next.line, k));
      LineParses(l.next.line, k);
    }
  }

  lemma {:induction false} SimpleParses<T>(e: Simple<T>, k: seq<Token<T>>)
    requires SimpleOk(e) && Stop(k)
    ensures ParseExec(SimpleTokens(e, k)) == Ok(SimpleMeans(e), k)
    decreases e
  {
    match e
    case Words(b) =>
      InterleavedNoStop(b);
      UpToEnd(b, k);
      SimpleCommand(b + k);
    case Block(l, b) =>
      var close := [Sym(')')] + (b + k);
      LineParses(l, close);
      Tail(Sym('('), LineTokens(l, close));
      Tail(Sym(')'), b + k);
      RedirsParse(b, k);
  }

  // ------------------------------------------------------------ whatever parses has a tree

  lemma {:induction false} RedirsTree<T>(toks: seq<Token<T>>) returns (b: seq<Token<T>>)
    requires ParseRedirs(toks).Redirects?
    ensures var r := ParseRedirs(toks);
            toks == b + r.rest && Interleaved(b) && Plain(b) == [] && Redirections(b) == r.list
    decreases |toks|
  {
    if !Starts(toks, "<>+") {
      b := [];
      assert toks == [] + toks;
    } else {
      var c := RedirsTree(toks[2..]);
      b := [toks[0], toks[1]] + c;
      assert b[2..] == c;
    }
  }

  lemma {:induction false} BacksTree<T>(c: Cmd<T>, toks: seq<Token<T>>) returns (n: nat)
    ensures var r := ParseBacks(c, toks); r.cmd == Backs(c, n) && toks == Ampersands(n, r.rest)
    decreases |toks|
  {
    if Starts(toks, "&") {
      n := BacksTree(Back(c), toks[1..]);
      BackLast(c, n);
      n := n + 1;
      assert toks == [Sym('&')] + toks[1..];
    } else {
      n := 0;
    }
  }

  lemma {:induction false} PipeTree<T>(toks: seq<Token<T>>) returns (p: Pipeline<T>)
    requires ParsePipe(toks).Ok?
    ensures var r := ParsePipe(toks); PipeOk(p) && PipeTokens(p, r.rest) == toks && PipeMeans(p) == r.cmd
    decreases |toks|, 2
  {
    var e := SimpleTree(toks);
    var rest := ParseExec(toks).rest;
    if Starts(rest, "|") {
      var right := PipeTree(rest[1..]);
      p := Bar(e, right);
      assert rest == [Sym('|')] + rest[1..];
    } else {
      p := Last(e);
    }
  }

  lemma {:induction false} LineTree<T>(toks: seq<Token<T>>) returns (l: Sequence<T>)
    requires ParseLine(toks).Ok?
    ensures var r := ParseLine(toks); LineOk(l) && LineTokens(l, r.rest) == toks && LineMeans(l) == r.cmd
    decreases |toks|, 3
  {
    var p := PipeTree(toks);
    var r := ParsePipe(toks);
    var n := BacksTree(r.cmd, r.rest);
    var rest := ParseBacks(r.cmd, r.rest).rest;
    if Starts(rest, ";") {
      var m := LineTree(rest[1..]);
      l := Sequence(p, n, Then(m));
      assert rest == [Sym(';')] + rest[1..];
    } else {
      l := Sequence(p, n, End);
    }
  }

  lemma {:induction false} SimpleTree<T>(toks: seq<Token<T>>) returns (e: Simple<T>)
    requires ParseExec(toks).Ok?
    ensures var r := ParseExec(toks); SimpleOk(e) && SimpleTokens(e, r.rest) == toks && SimpleMeans(e) == r.cmd
    decreases |toks|, 1
  {
    if Starts(toks, "(") {
      var l := LineTree(toks[1..]);
      var rest := ParseLine(toks[1..]).rest;
      var b := RedirsTree(rest[1..]);
      e := Block(l, b);
      assert rest == [Sym(')')] + rest[1..] && toks == [Sym('(')] + toks[1..];
    } else {
      SimpleCommand(toks);
      e := Words(UpToStop(toks));
    }
  }

  /** The parser accepts a line exactly if it is the tokens of a syntax tree, and gives that tree's command. So
      every word of an accepted line is in the command once and in order, and no line can be read in two ways. */
  lemma {:induction false} AcceptsExactly<T>(toks: seq<Token<T>>, c: Cmd<T>)
    ensures ParseAll(toks) == Ok(c, []) <==>
            exists l: Sequence<T> :: LineOk(l) && LineTokens(l, []) == toks && LineMeans(l) == c
  {
    if ParseAll(toks) == Ok(c, []) {
      var l := LineTree(toks);
      assert LineTokens(l, []) == toks;
    }
    if l: Sequence<T> :| LineOk(l) && LineTokens(l, []) == toks && LineMeans(l) == c {
      LineParses(l, []);
    }
  }
}
