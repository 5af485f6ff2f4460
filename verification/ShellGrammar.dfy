/** sh.c's grammar over token sequences: the recursive-descent parser as functions, the printer that puts
    parentheses only where the grammar needs them, and the round trip between the two. */
module ShellGrammar {
  const MAXARGS := 10
  const O_RDONLY := 0
  const O_WRONLY := 1
  const O_CREATE := 0x200

  /** A word, or a symbol; '+' stands for ">>". */
  datatype Token<T> = Word(w: T) | Sym(c: char)

  datatype Redirect<T> = Redirect(file: T, mode: nat, fd: nat)

  datatype Cmd<T> =
    | Exec(argv: seq<T>)
    | Redir(cmd: Cmd<T>, to: Redirect<T>)
    | Pipe(left: Cmd<T>, right: Cmd<T>)
    | List(left: Cmd<T>, right: Cmd<T>)
    | Back(cmd: Cmd<T>)

  datatype Result<T> = Ok(cmd: Cmd<T>, rest: seq<Token<T>>) | Panic(why: string)

  datatype Redirects<T> = Redirects(list: seq<Redirect<T>>, rest: seq<Token<T>>) | NoFile

  predicate Starts<T>(toks: seq<Token<T>>, among: string) {
    |toks| > 0 && toks[0].Sym? && toks[0].c in among
  }

  // ------------------------------------------------------------ the parser

  /** Both ">" and ">>" create and write. */
  function Direction<T>(c: char, file: T): Redirect<T> {
    if c == '<' then Redirect(file, O_RDONLY, 0) else Redirect(file, O_WRONLY + O_CREATE, 1)
  }

  /** The first redirection is innermost. */
  function Wrap<T>(cmd: Cmd<T>, list: seq<Redirect<T>>): Cmd<T> {
    if list == [] then cmd else Redir(Wrap(cmd, list[..|list| - 1]), list[|list| - 1])
  }

  function ParseRedirs<T>(toks: seq<Token<T>>): (r: Redirects<T>)
    ensures r.Redirects? ==> |r.rest| <= |toks|
    decreases |toks|
  {
    if !Starts(toks, "<>+") then Redirects([], toks)
    else if |toks| == 1 || !toks[1].Word? then NoFile
    else
      match ParseRedirs(toks[2..])
      case NoFile => NoFile
      case Redirects(list, rest) => Redirects([Direction(toks[0].c, toks[1].w)] + list, rest)
  }

  function ParseArgs<T>(argv: seq<T>, list: seq<Redirect<T>>, toks: seq<Token<T>>): (r: Result<T>)
    ensures r.Ok? ==> |r.rest| <= |toks|
    decreases |toks|
  {
    if toks == [] || Starts(toks, "|)&;") then Ok(Wrap(Exec(argv), list), toks)
    else if !toks[0].Word? then Panic("syntax")
    else if |argv| + 1 >= MAXARGS then Panic("too many args")
    else
      match ParseRedirs(toks[1..])
      case NoFile => Panic("missing file for redirection")
      case Redirects(more, rest) => ParseArgs(argv + [toks[0].w], list + more, rest)
  }

  /** One Back for every '&' in front. */
  function ParseBacks<T>(cmd: Cmd<T>, toks: seq<Token<T>>): (r: Result<T>)
    ensures r.Ok? && |r.rest| <= |toks|
    decreases |toks|
  {
    if Starts(toks, "&") then ParseBacks(Back(cmd), toks[1..]) else Ok(cmd, toks)
  }

  function ParseLine<T>(toks: seq<Token<T>>): (r: Result<T>)
    ensures r.Ok? ==> |r.rest| <= |toks|
    decreases |toks|, 3
  {
    match ParsePipe(toks)
    case Panic(why) => Panic(why)
    case Ok(cmd, rest) =>
      var left := ParseBacks(cmd, rest);
      if !Starts(left.rest, ";") then left
      else
        match ParseLine(left.rest[1..])
        case Panic(why) => Panic(why)
        case Ok(right, rest') => Ok(List(left.cmd, right), rest')
  }

  function ParseBlock<T>(toks: seq<Token<T>>): (r: Result<T>)
    ensures r.Ok? ==> |r.rest| < |toks|
    decreases |toks|, 0
  {
    if !Starts(toks, "(") then Panic("parseblock")
    else
      match ParseLine(toks[1..])
      case Panic(why) => Panic(why)
      case Ok(cmd, rest) =>
        if !Starts(rest, ")") then Panic("syntax - missing )")
        else
          match ParseRedirs(rest[1..])
          case NoFile => Panic("missing file for redirection")
          case Redirects(list, rest') => Ok(Wrap(cmd, list), rest')
  }

  function ParseExec<T>(toks: seq<Token<T>>): (r: Result<T>)
    ensures r.Ok? ==> |r.rest| <= |toks|
    decreases |toks|, 1
  {
    if Starts(toks, "(") then ParseBlock(toks)
    else
      match ParseRedirs(toks)
      case NoFile => Panic("missing file for redirection")
      case Redirects(list, rest) => ParseArgs([], list, rest)
  }

  function ParsePipe<T>(toks: seq<Token<T>>): (r: Result<T>)
    ensures r.Ok? ==> |r.rest| <= |toks|
    decreases |toks|, 2
  {
    match ParseExec(toks)
    case Panic(why) => Panic(why)
    case Ok(left, rest) =>
      if !Starts(rest, "|") then Ok(left, rest)
      else
        match ParsePipe(rest[1..])
        case Panic(why) => Panic(why)
        case Ok(right, rest') => Ok(Pipe(left, right), rest')
  }

  /** parsecmd: nothing may be left over. */
  function ParseAll<T>(toks: seq<Token<T>>): Result<T> {
    match ParseLine(toks)
    case Panic(why) => Panic(why)
    case Ok(cmd, rest) => if rest == [] then Ok(cmd, []) else Panic("syntax")
  }

  // ------------------------------------------------------------ the printer

  /** How tightly a command binds: what a line, a background command, a pipeline or a simple command may be. */
  function Level<T>(c: Cmd<T>): nat {
    match c
    case List(_, _) => 0
    case Back(_) => 1
    case Pipe(_, _) => 2
    case Exec(_) => 3
    case Redir(_, _) => 3
  }

  function PrintWords<T>(argv: seq<T>, k: seq<Token<T>>): seq<Token<T>> {
    if argv == [] then k else [Word(argv[0])] + PrintWords(argv[1..], k)
  }

  function PrintRedirs<T>(list: seq<Redirect<T>>, k: seq<Token<T>>): seq<Token<T>> {
    if list == [] then k
    else [Sym(if list[0].mode == O_RDONLY then '<' else '>')] + ([Word(list[0].file)] + PrintRedirs(list[1..], k))
  }

  function PrintBare<T>(c: Cmd<T>, k: seq<Token<T>>): seq<Token<T>>
    decreases c, 0
  {
    match c
    case Exec(argv) => PrintWords(argv, k)
    case Redir(cmd, to) => Print(cmd, 3, PrintRedirs([to], k))
    case Pipe(left, right) => Print(left, 3, [Sym('|')] + Print(right, 2, k))
    case List(left, right) => Print(left, 1, [Sym(';')] + Print(right, 0, k))
    case Back(cmd) => Print(cmd, 1, [Sym('&')] + k)
  }

  /** The tokens of c where a command of the given level is wanted, followed by k. */
  function Print<T>(c: Cmd<T>, level: nat, k: seq<Token<T>>): seq<Token<T>>
    decreases c, 1
  {
    if Level(c) < level then [Sym('(')] + PrintBare(c, [Sym(')')] + k) else PrintBare(c, k)
  }

  predicate Standard<T>(to: Redirect<T>) {
    (to.mode == O_RDONLY && to.fd == 0) || (to.mode == O_WRONLY + O_CREATE && to.fd == 1)
  }

  /** What the parser can build: at most MAXARGS - 1 words, and the two kinds of redirection. */
  predicate Buildable<T>(c: Cmd<T>) {
    match c
    case Exec(argv) => |argv| < MAXARGS
    case Redir(cmd, to) => Buildable(cmd) && Standard(to)
    case Pipe(left, right) => Buildable(left) && Buildable(right)
    case List(left, right) => Buildable(left) && Buildable(right)
    case Back(cmd) => Buildable(cmd)
  }

  // ------------------------------------------------------------ round trip

  predicate Stop<T>(k: seq<Token<T>>) {
    k == [] || Starts(k, "|)&;")
  }

  lemma {:induction false} Tail<T>(t: Token<T>, k: seq<Token<T>>)
    ensures ([t] + k)[1..] == k
  {
  }

  lemma {:induction false} WrapCons<T>(c: Cmd<T>, to: Redirect<T>, list: seq<Redirect<T>>)
    ensures Wrap(Redir(c, to), list) == Wrap(c, [to] + list)
    decreases |list|
  {
    if list == [] {
      assert [to] + list == [to];
    } else {
      WrapCons(c, to, list[..|list| - 1]);
      assert ([to] + list)[..|list|] == [to] + list[..|list| - 1];
    }
  }

  lemma {:induction false} RedirsBack<T>(list: seq<Redirect<T>>, k: seq<Token<T>>)
    requires Stop(k) && forall i :: 0 <= i < |list| ==> Standard(list[i])
    ensures ParseRedirs(PrintRedirs(list, k)) == Redirects(list, k)
    decreases |list|
  {
    if list != [] {
      RedirsBack(list[1..], k);
      assert PrintRedirs(list, k)[2..] == PrintRedirs(list[1..], k);
      assert list == [list[0]] + list[1..];
    }
  }

  lemma {:induction false} ArgsBack<T>(done: seq<T>, argv: seq<T>, list: seq<Redirect<T>>, k: seq<Token<T>>)
    requires Stop(k) && argv != [] && |done| + |argv| < MAXARGS && forall i :: 0 <= i < |list| ==> Standard(list[i])
    ensures ParseArgs(done, [], PrintWords(argv, PrintRedirs(list, k))) == Ok(Wrap(Exec(done + argv), list), k)
    decreases |argv|
  {
    var toks := PrintWords(argv, PrintRedirs(list, k));
    Tail(Word(argv[0]), PrintWords(argv[1..], PrintRedirs(list, k)));
    assert done + argv == done + [argv[0]] + argv[1..];
    if |argv| == 1 {
      RedirsBack(list, k);
      assert [] + list == list && done + argv == done + [argv[0]];
    } else {
      ArgsBack(done + [argv[0]], argv[1..], list, k);
      var none: seq<Redirect<T>> := [];
      assert none + none == none;
    }
  }

  /** Printing a command and parsing the tokens gives it back, at the end of the line or inside parentheses. */
  lemma {:induction false} LineBack<T>(c: Cmd<T>, k: seq<Token<T>>)
    requires Buildable(c) && (k == [] || Starts(k, ")"))
    ensures ParseLine(Print(c, 0, k)) == Ok(c, k)
    decreases c, 4
  {
    if c.List? {
      var k' := [Sym(';')] + Print(c.right, 0, k);
      BacksBack(c.left, k');
      Tail(Sym(';'), Print(c.right, 0, k));
      LineBack(c.right, k);
    } else {
      BacksBack(c, k);
    }
  }

  lemma {:induction false} BlockBack<T>(c: Cmd<T>, list: seq<Redirect<T>>, k: seq<Token<T>>)
    requires Buildable(c) && Level(c) < 3 && Stop(k) && forall i :: 0 <= i < |list| ==> Standard(list[i])
    ensures ParseExec(Print(c, 3, PrintRedirs(list, k))) == Ok(Wrap(c, list), k)
    decreases c, 5
  {
    hide Buildable;
    var k' := PrintRedirs(list, k);
    LineBack(c, [Sym(')')] + k');
    Tail(Sym('('), PrintBare(c, [Sym(')')] + k'));
    Tail(Sym(')'), k');
    RedirsBack(list, k);
  }

  lemma {:induction false} ExecBack<T>(c: Cmd<T>, list: seq<Redirect<T>>, k: seq<Token<T>>)
    requires Buildable(c) && Stop(k) && forall i :: 0 <= i < |list| ==> Standard(list[i])
    ensures ParseExec(Print(c, 3, PrintRedirs(list, k))) == Ok(Wrap(c, list), k)
    decreases c, if Level(c) < 3 then 6 else 1
  {
    match c {
      case Exec(argv) =>
        if argv == [] {
          RedirsBack(list, k);
        } else {
          ArgsBack([], argv, list, k);
          assert [] + argv == argv;
        }
      case Redir(cmd, to) =>
        WrapCons(cmd, to, list);
        assert PrintRedirs([to], PrintRedirs(list, k)) == PrintRedirs([to] + list, k) by {
          assert ([to] + list)[1..] == list && [to][1..] == [];
        }
        ExecBack(cmd, [to] + list, k);
      case _ => BlockBack(c, list, k);
    }
  }

  lemma {:induction false} PipeBack<T>(c: Cmd<T>, k: seq<Token<T>>)
    requires Buildable(c) && Stop(k) && !Starts(k, "|")
    ensures ParsePipe(Print(c, 2, k)) == Ok(c, k)
    decreases c, if Level(c) < 2 then 7 else 2
  {
    if c.Pipe? {
      var k' := [Sym('|')] + Print(c.right, 2, k);
      ExecBack(c.left, [], k');
      Tail(Sym('|'), Print(c.right, 2, k));
      PipeBack(c.right, k);
    } else {
      ExecBack(c, [], k);
    }
  }

  /** A pipeline and the '&'s behind it, up to where the parser goes on. */
  lemma {:induction false} BacksBack<T>(c: Cmd<T>, k: seq<Token<T>>)
    requires Buildable(c) && Stop(k) && !Starts(k, "|")
    ensures var r := ParsePipe(Print(c, 1, k)); r.Ok? && ParseBacks(r.cmd, r.rest) == ParseBacks(c, k)
    decreases c, if Level(c) < 1 then 8 else 3
  {
    if c.Back? {
      BacksBack(c.cmd, [Sym('&')] + k);
      Tail(Sym('&'), k);
    } else {
      PipeBack(c, k);
    }
  }

  // ------------------------------------------------------------ where the words come from

  ghost predicate Within<T>(toks: seq<Token<T>>, words: iset<T>) {
    forall i :: 0 <= i < |toks| && toks[i].Word? ==> toks[i].w in words
  }

  ghost predicate ListWithin<T>(list: seq<Redirect<T>>, words: iset<T>) {
    forall i :: 0 <= i < |list| ==> Standard(list[i]) && list[i].file in words
  }

  /** A command that the printer accepts and whose words all come from the given ones. */
  ghost predicate CmdWithin<T>(c: Cmd<T>, words: iset<T>) {
    match c
    case Exec(argv) => |argv| < MAXARGS && forall i :: 0 <= i < |argv| ==> argv[i] in words
    case Redir(cmd, to) => CmdWithin(cmd, words) && Standard(to) && to.file in words
    case Pipe(left, right) => CmdWithin(left, words) && CmdWithin(right, words)
    case List(left, right) => CmdWithin(left, words) && CmdWithin(right, words)
    case Back(cmd) => CmdWithin(cmd, words)
  }

  ghost predicate ResultWithin<T>(r: Result<T>, words: iset<T>) {
    r.Ok? ==> CmdWithin(r.cmd, words) && Within(r.rest, words)
  }

  lemma {:induction false} WrapWithin<T>(c: Cmd<T>, list: seq<Redirect<T>>, words: iset<T>)
    requires CmdWithin(c, words) && ListWithin(list, words)
    ensures CmdWithin(Wrap(c, list), words)
    decreases |list|
  {
    if list != [] {
      WrapWithin(c, list[..|list| - 1], words);
    }
  }

  lemma {:induction false} RedirsWithin<T>(toks: seq<Token<T>>, words: iset<T>)
    requires Within(toks, words)
    ensures var r := ParseRedirs(toks); r.Redirects? ==> ListWithin(r.list, words) && Within(r.rest, words)
    decreases |toks|
  {
    if Starts(toks, "<>+") && |toks| > 1 && toks[1].Word? {
      RedirsWithin(toks[2..], words);
    }
  }

  lemma {:induction false} ArgsWithin<T>(argv: seq<T>, list: seq<Redirect<T>>, toks: seq<Token<T>>, words: iset<T>)
    requires CmdWithin(Exec(argv), words) && ListWithin(list, words) && Within(toks, words)
    ensures ResultWithin(ParseArgs(argv, list, toks), words)
    decreases |toks|
  {
    WrapWithin(Exec(argv), list, words);
    if toks != [] && toks[0].Word? && |argv| + 1 < MAXARGS {
      RedirsWithin(toks[1..], words);
      var r := ParseRedirs(toks[1..]);
      if r.Redirects? {
        ArgsWithin(argv + [toks[0].w], list + r.list, r.rest, words);
      }
    }
  }

  lemma {:induction false} BacksWithin<T>(c: Cmd<T>, toks: seq<Token<T>>, words: iset<T>)
    requires CmdWithin(c, words) && Within(toks, words)
    ensures ResultWithin(ParseBacks(c, toks), words)
    decreases |toks|
  {
    if Starts(toks, "&") {
      BacksWithin(Back(c), toks[1..], words);
    }
  }

  lemma {:induction false} ExecWithin<T>(toks: seq<Token<T>>, words: iset<T>)
    requires Within(toks, words)
    ensures ResultWithin(ParseExec(toks), words)
    decreases |toks|, 1
  {
    if Starts(toks, "(") {
      LineWithin(toks[1..], words);
      var r := ParseLine(toks[1..]);
      if r.Ok? && Starts(r.rest, ")") {
        RedirsWithin(r.rest[1..], words);
        var q := ParseRedirs(r.rest[1..]);
        if q.Redirects? {
          WrapWithin(r.cmd, q.list, words);
        }
      }
    } else {
      RedirsWithin(toks, words);
      var r := ParseRedirs(toks);
      if r.Redirects? {
        ArgsWithin([], r.list, r.rest, words);
      }
    }
  }

  lemma {:induction false} PipeWithin<T>(toks: seq<Token<T>>, words: iset<T>)
    requires Within(toks, words)
    ensures ResultWithin(ParsePipe(toks), words)
    decreases |toks|, 2
  {
    ExecWithin(toks, words);
    var r := ParseExec(toks);
    if r.Ok? && Starts(r.rest, "|") {
      PipeWithin(r.rest[1..], words);
    }
  }

  /** Whatever parses is a command that the printer accepts, made of the words that were read. */
  lemma {:induction false} LineWithin<T>(toks: seq<Token<T>>, words: iset<T>)
    requires Within(toks, words)
    ensures ResultWithin(ParseLine(toks), words)
    decreases |toks|, 3
  {
    PipeWithin(toks, words);
    var r := ParsePipe(toks);
    if r.Ok? {
      BacksWithin(r.cmd, r.rest, words);
      var left := ParseBacks(r.cmd, r.rest);
      if Starts(left.rest, ";") {
        LineWithin(left.rest[1..], words);
      }
    }
  }

  // ------------------------------------------------------------ the parser looks only at a word's place

  function MapToken<T, U>(f: T -> U, t: Token<T>): Token<U> {
    match t
    case Word(w) => Word(f(w))
    case Sym(c) => Sym(c)
  }

  function MapTokens<T, U>(f: T -> U, toks: seq<Token<T>>): seq<Token<U>> {
    seq(|toks|, i requires 0 <= i < |toks| => MapToken(f, toks[i]))
  }

  function MapRedirect<T, U>(f: T -> U, to: Redirect<T>): Redirect<U> {
    Redirect(f(to.file), to.mode, to.fd)
  }

  function MapList<T, U>(f: T -> U, list: seq<Redirect<T>>): seq<Redirect<U>> {
    seq(|list|, i requires 0 <= i < |list| => MapRedirect(f, list[i]))
  }

  function MapWords<T, U>(f: T -> U, argv: seq<T>): seq<U> {
    seq(|argv|, i requires 0 <= i < |argv| => f(argv[i]))
  }

  function MapCmd<T, U>(f: T -> U, c: Cmd<T>): Cmd<U> {
    match c
    case Exec(argv) => Exec(MapWords(f, argv))
    case Redir(cmd, to) => Redir(MapCmd(f, cmd), MapRedirect(f, to))
    case Pipe(left, right) => Pipe(MapCmd(f, left), MapCmd(f, right))
    case List(left, right) => List(MapCmd(f, left), MapCmd(f, right))
    case Back(cmd) => Back(MapCmd(f, cmd))
  }

  function MapResult<T, U>(f: T -> U, r: Result<T>): Result<U> {
    match r
    case Ok(cmd, rest) => Ok(MapCmd(f, cmd), MapTokens(f, rest))
    case Panic(why) => Panic(why)
  }

  lemma {:induction false} MapDrop<T, U>(f: T -> U, toks: seq<Token<T>>, n: nat)
    requires n <= |toks|
    ensures MapTokens(f, toks)[n..] == MapTokens(f, toks[n..])
  {
  }

  lemma {:induction false} MapWrap<T, U>(f: T -> U, c: Cmd<T>, list: seq<Redirect<T>>)
    ensures MapCmd(f, Wrap(c, list)) == Wrap(MapCmd(f, c), MapList(f, list))
    decreases |list|
  {
    if list != [] {
      MapWrap(f, c, list[..|list| - 1]);
      assert MapList(f, list)[..|list| - 1] == MapList(f, list[..|list| - 1]);
    }
  }

  lemma {:induction false} MapRedirs<T, U>(f: T -> U, toks: seq<Token<T>>)
    ensures ParseRedirs(MapTokens(f, toks)) == match ParseRedirs(toks)
                                               case NoFile => NoFile
                                               case Redirects(list, rest) =>
                                                 Redirects(MapList(f, list), MapTokens(f, rest))
    decreases |toks|
  {
    if Starts(toks, "<>+") && |toks| > 1 && toks[1].Word? {
      MapRedirs(f, toks[2..]);
      MapDrop(f, toks, 2);
      var r := ParseRedirs(toks[2..]);
      if r.Redirects? {
        var d := Direction(toks[0].c, toks[1].w);
        assert MapList(f, [d] + r.list) == [MapRedirect(f, d)] + MapList(f, r.list);
      }
    }
  }

  lemma {:induction false} MapSimple<T, U>(f: T -> U, argv: seq<T>, list: seq<Redirect<T>>)
    ensures MapCmd(f, Wrap(Exec(argv), list)) == Wrap(Exec(MapWords(f, argv)), MapList(f, list))
    ensures |MapWords(f, argv)| == |argv|
  {
    MapWrap(f, Exec(argv), list);
  }

  lemma {:induction false} MapMore<T, U>(f: T -> U, argv: seq<T>, w: T, list: seq<Redirect<T>>, more: seq<Redirect<T>>)
    ensures MapWords(f, argv + [w]) == MapWords(f, argv) + [f(w)]
    ensures MapList(f, list + more) == MapList(f, list) + MapList(f, more)
  {
  }

  lemma {:induction false} MapArgs<T, U>(f: T -> U, argv: seq<T>, list: seq<Redirect<T>>, toks: seq<Token<T>>)
    ensures ParseArgs(MapWords(f, argv), MapList(f, list), MapTokens(f, toks)) ==
              MapResult(f, ParseArgs(argv, list, toks))
    decreases |toks|
  {
    hide MapWords, MapList, MapCmd, Wrap;
    MapSimple(f, argv, list);
    if toks != [] && toks[0].Word? && |argv| + 1 < MAXARGS {
      MapRedirs(f, toks[1..]);
      MapDrop(f, toks, 1);
      var r := ParseRedirs(toks[1..]);
      if r.Redirects? {
        MapArgs(f, argv + [toks[0].w], list + r.list, r.rest);
        MapMore(f, argv, toks[0].w, list, r.list);
      }
    }
  }

  lemma {:induction false} MapBacks<T, U>(f: T -> U, c: Cmd<T>, toks: seq<Token<T>>)
    ensures ParseBacks(MapCmd(f, c), MapTokens(f, toks)) == MapResult(f, ParseBacks(c, toks))
    decreases |toks|
  {
    if Starts(toks, "&") {
      MapDrop(f, toks, 1);
      MapBacks(f, Back(c), toks[1..]);
    }
  }

  lemma {:induction false} MapExec<T, U>(f: T -> U, toks: seq<Token<T>>)
    ensures ParseExec(MapTokens(f, toks)) == MapResult(f, ParseExec(toks))
    decreases |toks|, 1
  {
    if Starts(toks, "(") {
      MapDrop(f, toks, 1);
      MapLine(f, toks[1..]);
      var r := ParseLine(toks[1..]);
      if r.Ok? && Starts(r.rest, ")") {
        MapDrop(f, r.rest, 1);
        MapRedirs(f, r.rest[1..]);
        var q := ParseRedirs(r.rest[1..]);
        if q.Redirects? {
          MapWrap(f, r.cmd, q.list);
        }
      }
    } else {
      MapRedirs(f, toks);
      var r := ParseRedirs(toks);
      if r.Redirects? {
        MapArgs(f, [], r.list, r.rest);
        assert MapWords(f, []) == [];
      }
    }
  }

  lemma {:induction false} MapPipe<T, U>(f: T -> U, toks: seq<Token<T>>)
    ensures ParsePipe(MapTokens(f, toks)) == MapResult(f, ParsePipe(toks))
    decreases |toks|, 2
  {
    MapExec(f, toks);
    var r := ParseExec(toks);
    if r.Ok? && Starts(r.rest, "|") {
      MapDrop(f, r.rest, 1);
      MapPipe(f, r.rest[1..]);
    }
  }

  /** Renaming the words of the input renames those of the command and changes nothing else. */
  lemma {:induction false} MapLine<T, U>(f: T -> U, toks: seq<Token<T>>)
    ensures ParseLine(MapTokens(f, toks)) == MapResult(f, ParseLine(toks))
    decreases |toks|, 3
  {
    MapPipe(f, toks);
    var r := ParsePipe(toks);
    if r.Ok? {
      MapBacks(f, r.cmd, r.rest);
      var left := ParseBacks(r.cmd, r.rest);
      if Starts(left.rest, ";") {
        MapDrop(f, left.rest, 1);
        MapLine(f, left.rest[1..]);
      }
    }
  }
}
