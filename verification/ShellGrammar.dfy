/**
 * The command language of the shell (sh.c): trees, tokens, the recursive-descent grammar as
 * functions on token lists, and the printing it undoes.  Trees and tokens are generic in
 * what a word is: a span of the input buffer while parsing, a string once read back.
 */
module ShellGrammar {
  const MAXARGS: nat := 10
  const O_RDONLY: nat := 0
  const O_WRONLY_CREATE: nat := 0x201

  datatype List<T> = Nil | Cons(head: T, tail: List<T>)

  datatype Token<T> = Word(word: T) | Op(sym: char)

  datatype Cmd<T> =
    | Exec(args: seq<T>)
    | Redir(cmd: Cmd<T>, file: T, mode: nat, fd: nat)
    | Pipe(left: Cmd<T>, right: Cmd<T>)
    | Sequence(left: Cmd<T>, right: Cmd<T>)
    | Back(cmd: Cmd<T>)

  datatype Error = MissingFile | MissingParen | Syntax | TooManyArgs

  /** A parse of a prefix of the tokens, with what is left; or the panic that ended it. */
  datatype Outcome<T> = Parsed(cmd: Cmd<T>, rest: List<Token<T>>) | Panic(error: Error)

  function Size<T>(ts: List<T>): nat {
    if ts.Nil? then 0 else 1 + Size(ts.tail)
  }

  predicate Starts<T>(ts: List<Token<T>>, c: char) {
    ts.Cons? && ts.head == Op(c)
  }

  predicate IsRedir(c: char) {
    c == '<' || c == '>' || c == '+'
  }

  predicate StartsRedir<T>(ts: List<Token<T>>) {
    ts.Cons? && ts.head.Op? && IsRedir(ts.head.sym)
  }

  /** Where a simple command ends. */
  predicate Stops<T>(ts: List<Token<T>>) {
    ts.Nil? || Starts(ts, '|') || Starts(ts, ')') || Starts(ts, '&') || Starts(ts, ';')
  }

  /** The redirection node; '+' stands for >>, which opens its file exactly as > does. */
  function Redirect<T>(cmd: Cmd<T>, c: char, file: T): Cmd<T> {
    if c == '<' then Redir(cmd, file, O_RDONLY, 0) else Redir(cmd, file, O_WRONLY_CREATE, 1)
  }

  /** The exec node is filled in while redirection nodes already point at it. */
  function AddArg<T>(cmd: Cmd<T>, w: T): Cmd<T> {
    match cmd
    case Exec(args) => Exec(args + [w])
    case Redir(c, file, mode, fd) => Redir(AddArg(c, w), file, mode, fd)
    case _ => cmd
  }

  function ParseRedirs<T>(cmd: Cmd<T>, ts: List<Token<T>>): (r: Outcome<T>)
    ensures r.Parsed? ==> Size(r.rest) <= Size(ts) && !StartsRedir(r.rest)
    decreases ts
  {
    if !StartsRedir(ts) then Parsed(cmd, ts)
    else if ts.tail.Cons? && ts.tail.head.Word? then
      ParseRedirs(Redirect(cmd, ts.head.sym, ts.tail.head.word), ts.tail.tail)
    else Panic(MissingFile)
  }

  function ParseArgs<T>(cmd: Cmd<T>, argc: nat, ts: List<Token<T>>): (r: Outcome<T>)
    ensures r.Parsed? ==> Size(r.rest) <= Size(ts) && Stops(r.rest)
    decreases Size(ts)
  {
    if Stops(ts) then Parsed(cmd, ts)
    else if ts.head.Op? then Panic(Syntax)
    else if argc + 1 >= MAXARGS then Panic(TooManyArgs)
    else
      match ParseRedirs(AddArg(cmd, ts.head.word), ts.tail)
      case Parsed(c, rest) => ParseArgs(c, argc + 1, rest)
      case Panic(e) => Panic(e)
  }

  function ParseExec<T>(ts: List<Token<T>>): (r: Outcome<T>)
    ensures r.Parsed? ==> Size(r.rest) <= Size(ts)
    decreases Size(ts), 1
  {
    if Starts(ts, '(') then ParseBlock(ts)
    else
      match ParseRedirs(Exec([]), ts)
      case Parsed(c, rest) => ParseArgs(c, 0, rest)
      case Panic(e) => Panic(e)
  }

  function ParseBlock<T>(ts: List<Token<T>>): (r: Outcome<T>)
    requires Starts(ts, '(')
    ensures r.Parsed? ==> Size(r.rest) <= Size(ts)
    decreases Size(ts), 0
  {
    match ParseLine(ts.tail)
    case Parsed(c, rest) => if Starts(rest, ')') then ParseRedirs(c, rest.tail) else Panic(MissingParen)
    case Panic(e) => Panic(e)
  }

  function ParsePipe<T>(ts: List<Token<T>>): (r: Outcome<T>)
    ensures r.Parsed? ==> Size(r.rest) <= Size(ts)
    decreases Size(ts), 2
  {
    match ParseExec(ts)
    case Parsed(c, rest) => PipeTail(c, rest)
    case Panic(e) => Panic(e)
  }

  function PipeTail<T>(cmd: Cmd<T>, ts: List<Token<T>>): (r: Outcome<T>)
    ensures r.Parsed? ==> Size(r.rest) <= Size(ts)
    decreases Size(ts), 1
  {
    if !Starts(ts, '|') then Parsed(cmd, ts)
    else
      match ParsePipe(ts.tail)
      case Parsed(c, rest) => Parsed(Pipe(cmd, c), rest)
      case Panic(e) => Panic(e)
  }

  function ParseLine<T>(ts: List<Token<T>>): (r: Outcome<T>)
    ensures r.Parsed? ==> Size(r.rest) <= Size(ts)
    decreases Size(ts), 3
  {
    match ParsePipe(ts)
    case Parsed(c, rest) => LineTail(c, rest)
    case Panic(e) => Panic(e)
  }

  function LineTail<T>(cmd: Cmd<T>, ts: List<Token<T>>): (r: Outcome<T>)
    ensures r.Parsed? ==> Size(r.rest) <= Size(ts)
    decreases Size(ts), 2
  {
    if Starts(ts, '&') then LineTail(Back(cmd), ts.tail)
    else if !Starts(ts, ';') then Parsed(cmd, ts)
    else
      match ParseLine(ts.tail)
      case Parsed(c, rest) => Parsed(Sequence(cmd, c), rest)
      case Panic(e) => Panic(e)
  }

  /** A whole line: nothing may be left over. */
  function ParseCmd<T>(ts: List<Token<T>>): Outcome<T> {
    var r := ParseLine(ts);
    if r.Parsed? && r.rest.Cons? then Panic(Syntax) else r
  }

  // Printing

  /** How loosely a tree binds: simple command, pipeline, background job, list. */
  function Level<T>(t: Cmd<T>): nat {
    match t
    case Exec(_) => 0
    case Redir(_, _, _, _) => 0
    case Pipe(_, _) => 1
    case Back(_) => 2
    case Sequence(_, _) => 3
  }

  function Words<T>(args: seq<T>, rest: List<Token<T>>): List<Token<T>> {
    if args == [] then rest else Cons(Word(args[0]), Words(args[1..], rest))
  }

  /** The tokens of t followed by rest, where the context admits level k: parentheses are
      written only where t binds more loosely than that. */
  function Print<T>(t: Cmd<T>, k: nat, rest: List<Token<T>>): List<Token<T>>
    decreases t, if Level(t) > k then 1 else 0
  {
    if Level(t) > k then Cons(Op('('), Print(t, 3, Cons(Op(')'), rest)))
    else
      match t
      case Exec(args) => Words(args, rest)
      case Redir(c, file, _, fd) => Print(c, 0, Cons(Op(if fd == 0 then '<' else '>'), Cons(Word(file), rest)))
      case Pipe(l, r) => Print(l, 0, Cons(Op('|'), Print(r, 1, rest)))
      case Back(c) => Print(c, 2, Cons(Op('&'), rest))
      case Sequence(l, r) => Print(l, 2, Cons(Op(';'), Print(r, 3, rest)))
  }

  /** Every redirection is < or >, as the parser makes them. */
  predicate Shaped<T>(t: Cmd<T>) {
    match t
    case Exec(_) => true
    case Redir(c, _, mode, fd) => Shaped(c) && ((mode == O_RDONLY && fd == 0) || (mode == O_WRONLY_CREATE && fd == 1))
    case Pipe(l, r) => Shaped(l) && Shaped(r)
    case Back(c) => Shaped(c)
    case Sequence(l, r) => Shaped(l) && Shaped(r)
  }

  /** No simple command has more words than argv has room for. */
  predicate Fits<T>(t: Cmd<T>) {
    match t
    case Exec(args) => |args| < MAXARGS
    case Redir(c, _, _, _) => Fits(c)
    case Pipe(l, r) => Fits(l) && Fits(r)
    case Back(c) => Fits(c)
    case Sequence(l, r) => Fits(l) && Fits(r)
  }

  // Parsing undoes printing

  /** The words of a simple command, then its redirections. */
  lemma {:induction false} ArgsBack<T>(done: seq<T>, todo: seq<T>, ts: List<Token<T>>, t: Cmd<T>, rest: List<Token<T>>)
    requires |done| < MAXARGS && todo != []
    requires ParseRedirs(Exec(done + todo), ts) == Parsed(t, rest) && Stops(rest)
    ensures ParseArgs(Exec(done), |done|, Words(todo, ts)) ==
      if |done + todo| < MAXARGS then Parsed(t, rest) else Panic(TooManyArgs)
    decreases |todo|
  {
    if |done| + 1 < MAXARGS {
      var next, more := done + [todo[0]], todo[1..];
      assert next + more == done + todo;
      if more != [] {
        ArgsBack(next, more, ts, t, rest);
      } else {
        assert next == done + todo;
      }
    }
  }

  /** A simple command or block, then more redirections. */
  lemma {:induction false} ExecBack<T>(c: Cmd<T>, ts: List<Token<T>>, t: Cmd<T>, rest: List<Token<T>>)
    requires Shaped(c) && ParseRedirs(c, ts) == Parsed(t, rest) && Stops(rest)
    ensures ParseExec(Print(c, 0, ts)) == if Fits(c) then Parsed(t, rest) else Panic(TooManyArgs)
    decreases c, if Level(c) > 0 then 4 else 0
  {
    match c
    case Exec(args) =>
      if args != [] {
        assert [] + args == args;
        ArgsBack([], args, ts, t, rest);
      }
    case Redir(c0, file, _, fd) =>
      ExecBack(c0, Cons(Op(if fd == 0 then '<' else '>'), Cons(Word(file), ts)), t, rest);
    case _ =>
      LineBack(c, Cons(Op(')'), ts));
  }

  lemma {:induction false} PipeBack<T>(t: Cmd<T>, rest: List<Token<T>>)
    requires Shaped(t) && Stops(rest) && !Starts(rest, '|')
    ensures ParsePipe(Print(t, 1, rest)) == if Fits(t) then Parsed(t, rest) else Panic(TooManyArgs)
    decreases t, if Level(t) > 1 then 5 else 1
  {
    match t
    case Pipe(l, r) =>
      var more := Cons(Op('|'), Print(r, 1, rest));
      ExecBack(l, more, l, more);
      PipeBack(r, rest);
    case _ =>
      ExecBack(t, rest, t, rest);
  }

  lemma {:induction false} BackBack<T>(t: Cmd<T>, rest: List<Token<T>>)
    requires Shaped(t) && Stops(rest) && !Starts(rest, '|')
    ensures ParseLine(Print(t, 2, rest)) == if Fits(t) then LineTail(t, rest) else Panic(TooManyArgs)
    decreases t, if Level(t) > 2 then 6 else 2
  {
    match t
    case Back(c) =>
      BackBack(c, Cons(Op('&'), rest));
    case _ =>
      assert Print(t, 2, rest) == Print(t, 1, rest);
      PipeBack(t, rest);
  }

  lemma {:induction false} LineBack<T>(t: Cmd<T>, rest: List<Token<T>>)
    requires Shaped(t) && (rest.Nil? || Starts(rest, ')'))
    ensures ParseLine(Print(t, 3, rest)) == if Fits(t) then Parsed(t, rest) else Panic(TooManyArgs)
    decreases t, 3
  {
    match t
    case Sequence(l, r) =>
      BackBack(l, Cons(Op(';'), Print(r, 3, rest)));
      LineBack(r, rest);
    case _ =>
      BackBack(t, rest);
  }

  /** Parsing recovers every tree from its printing, unless a simple command has too many
      words, and then it panics for that reason. */
  lemma TokenRoundTrip<T>(t: Cmd<T>)
    requires Shaped(t)
    ensures ParseCmd(Print(t, 3, Nil)) == if Fits(t) then Parsed(t, Nil) else Panic(TooManyArgs)
  {
    LineBack(t, Nil);
  }

  // Parsing yields only trees that printing covers

  /** Redirections around one exec node with n words. */
  predicate Simple<T>(t: Cmd<T>, n: nat) {
    match t
    case Exec(args) => |args| == n
    case Redir(c, _, _, _) => Simple(c, n)
    case _ => false
  }

  lemma {:induction false} SimpleFits<T>(t: Cmd<T>, n: nat)
    requires Simple(t, n)
    ensures Fits(t) == (n < MAXARGS)
  {
    match t
    case Exec(_) =>
    case Redir(c, _, _, _) => SimpleFits(c, n);
  }

  lemma {:induction false} SimpleAdd<T>(t: Cmd<T>, n: nat, w: T)
    requires Shaped(t) && Simple(t, n)
    ensures Shaped(AddArg(t, w)) && Simple(AddArg(t, w), n + 1)
  {
    match t
    case Exec(_) =>
    case Redir(c, _, _, _) => SimpleAdd(c, n, w);
  }

  lemma {:induction false} RedirsShaped<T>(cmd: Cmd<T>, ts: List<Token<T>>)
    requires Shaped(cmd)
    ensures var r := ParseRedirs(cmd, ts); r.Parsed? ==>
      && Shaped(r.cmd) && (Fits(cmd) ==> Fits(r.cmd)) && forall n: nat :: Simple(cmd, n) ==> Simple(r.cmd, n)
    decreases ts
  {
    if StartsRedir(ts) && ts.tail.Cons? && ts.tail.head.Word? {
      RedirsShaped(Redirect(cmd, ts.head.sym, ts.tail.head.word), ts.tail.tail);
    }
  }

  lemma {:induction false} ArgsShaped<T>(cmd: Cmd<T>, argc: nat, ts: List<Token<T>>)
    requires Shaped(cmd) && Simple(cmd, argc) && argc < MAXARGS
    ensures var r := ParseArgs(cmd, argc, ts); r.Parsed? ==> Shaped(r.cmd) && Fits(r.cmd)
    decreases Size(ts)
  {
    if Stops(ts) {
      SimpleFits(cmd, argc);
    } else if ts.head.Word? && argc + 1 < MAXARGS {
      var w := ts.head.word;
      SimpleAdd(cmd, argc, w);
      var r := ParseRedirs(AddArg(cmd, w), ts.tail);
      RedirsShaped(AddArg(cmd, w), ts.tail);
      if r.Parsed? { ArgsShaped(r.cmd, argc + 1, r.rest); }
    }
  }

  lemma {:induction false} ExecShaped<T>(ts: List<Token<T>>)
    ensures var r := ParseExec(ts); r.Parsed? ==> Shaped(r.cmd) && Fits(r.cmd)
    decreases Size(ts), 1
  {
    if Starts(ts, '(') {
      LineShaped(ts.tail);
      var r := ParseLine(ts.tail);
      if r.Parsed? && Starts(r.rest, ')') { RedirsShaped(r.cmd, r.rest.tail); }
    } else {
      RedirsShaped<T>(Exec([]), ts);
      var r := ParseRedirs(Exec([]), ts);
      if r.Parsed? { ArgsShaped(r.cmd, 0, r.rest); }
    }
  }

  lemma {:induction false} PipeShaped<T>(ts: List<Token<T>>)
    ensures var r := ParsePipe(ts); r.Parsed? ==> Shaped(r.cmd) && Fits(r.cmd)
    decreases Size(ts), 2
  {
    ExecShaped(ts);
    var r := ParseExec(ts);
    if r.Parsed? && Starts(r.rest, '|') { PipeShaped(r.rest.tail); }
  }

  lemma {:induction false} LineTailShaped<T>(cmd: Cmd<T>, ts: List<Token<T>>)
    requires Shaped(cmd) && Fits(cmd)
    ensures var r := LineTail(cmd, ts); r.Parsed? ==> Shaped(r.cmd) && Fits(r.cmd)
    decreases Size(ts), 2
  {
    if Starts(ts, '&') {
      LineTailShaped(Back(cmd), ts.tail);
    } else if Starts(ts, ';') {
      LineShaped(ts.tail);
    }
  }

  lemma {:induction false} LineShaped<T>(ts: List<Token<T>>)
    ensures var r := ParseLine(ts); r.Parsed? ==> Shaped(r.cmd) && Fits(r.cmd)
    decreases Size(ts), 3
  {
    PipeShaped(ts);
    var r := ParsePipe(ts);
    if r.Parsed? { LineTailShaped(r.cmd, r.rest); }
  }

  /** A tree is the parse of some line exactly when its redirections are < or > and no simple
      command has too many words. */
  lemma ParsedTrees<T>(t: Cmd<T>)
    ensures (exists ts: List<Token<T>> :: ParseCmd(ts) == Parsed(t, Nil)) <==> Shaped(t) && Fits(t)
  {
    if Shaped(t) && Fits(t) {
      TokenRoundTrip(t);
      assert ParseCmd(Print(t, 3, Nil)) == Parsed(t, Nil);
    }
    forall ts: List<Token<T>> | ParseCmd(ts) == Parsed(t, Nil) ensures Shaped(t) && Fits(t) {
      LineShaped(ts);
    }
  }

  // >> is parsed as > is

  function PlainToken<T>(t: Token<T>): Token<T> {
    if t.Op? && t.sym == '+' then Op('>') else t
  }

  /** Every >> written as >. */
  function Plain<T>(ts: List<Token<T>>): List<Token<T>> {
    match ts
    case Nil => Nil
    case Cons(t, tail) => Cons(PlainToken(t), Plain(tail))
  }

  function PlainOutcome<T>(r: Outcome<T>): Outcome<T> {
    match r
    case Parsed(c, rest) => Parsed(c, Plain(rest))
    case Panic(e) => Panic(e)
  }

  lemma {:induction false} RedirsPlain<T>(cmd: Cmd<T>, ts: List<Token<T>>)
    ensures ParseRedirs(cmd, Plain(ts)) == PlainOutcome(ParseRedirs(cmd, ts))
    decreases ts
  {
    if StartsRedir(ts) && ts.tail.Cons? && ts.tail.head.Word? {
      RedirsPlain(Redirect(cmd, ts.head.sym, ts.tail.head.word), ts.tail.tail);
    }
  }

  lemma {:induction false} ArgsPlain<T>(cmd: Cmd<T>, argc: nat, ts: List<Token<T>>)
    ensures ParseArgs(cmd, argc, Plain(ts)) == PlainOutcome(ParseArgs(cmd, argc, ts))
    decreases Size(ts)
  {
    hide ParseRedirs, AddArg;
    if !Stops(ts) && ts.head.Word? && argc + 1 < MAXARGS {
      var c := AddArg(cmd, ts.head.word);
      RedirsPlain(c, ts.tail);
      var r := ParseRedirs(c, ts.tail);
      if r.Parsed? { ArgsPlain(r.cmd, argc + 1, r.rest); }
    }
  }

  lemma {:induction false} ExecPlain<T>(ts: List<Token<T>>)
    ensures ParseExec(Plain(ts)) == PlainOutcome(ParseExec(ts))
    decreases Size(ts), 1
  {
    if Starts(ts, '(') {
      LinePlain(ts.tail);
      var r := ParseLine(ts.tail);
      if r.Parsed? && Starts(r.rest, ')') { RedirsPlain(r.cmd, r.rest.tail); }
    } else {
      RedirsPlain<T>(Exec([]), ts);
      var r := ParseRedirs<T>(Exec([]), ts);
      if r.Parsed? { ArgsPlain(r.cmd, 0, r.rest); }
    }
  }

  lemma {:induction false} PipePlain<T>(ts: List<Token<T>>)
    ensures ParsePipe(Plain(ts)) == PlainOutcome(ParsePipe(ts))
    decreases Size(ts), 2
  {
    ExecPlain(ts);
    var r := ParseExec(ts);
    if r.Parsed? && Starts(r.rest, '|') { PipePlain(r.rest.tail); }
  }

  lemma {:induction false} LineTailPlain<T>(cmd: Cmd<T>, ts: List<Token<T>>)
    ensures LineTail(cmd, Plain(ts)) == PlainOutcome(LineTail(cmd, ts))
    decreases Size(ts), 2
  {
    if Starts(ts, '&') {
      LineTailPlain(Back(cmd), ts.tail);
    } else if Starts(ts, ';') {
      LinePlain(ts.tail);
    }
  }

  lemma {:induction false} LinePlain<T>(ts: List<Token<T>>)
    ensures ParseLine(Plain(ts)) == PlainOutcome(ParseLine(ts))
    decreases Size(ts), 3
  {
    PipePlain(ts);
    var r := ParsePipe(ts);
    if r.Parsed? { LineTailPlain(r.cmd, r.rest); }
  }

  lemma AppendIsWrite<T>(ts: List<Token<T>>)
    ensures ParseCmd(Plain(ts)) == PlainOutcome(ParseCmd(ts))
  {
    LinePlain(ts);
  }

  // Words and redirections of a simple command, in any order

  datatype Item<T> = Arg(w: T) | To(sym: char, file: T)

  predicate Redirs<T>(items: seq<Item<T>>) {
    forall i :: 0 <= i < |items| && items[i].To? ==> IsRedir(items[i].sym)
  }

  function Items<T>(items: seq<Item<T>>, rest: List<Token<T>>): List<Token<T>> {
    if items == [] then rest
    else
      match items[0]
      case Arg(w) => Cons(Word(w), Items(items[1..], rest))
      case To(c, file) => Cons(Op(c), Cons(Word(file), Items(items[1..], rest)))
  }

  function ArgsOf<T>(items: seq<Item<T>>): seq<T> {
    if items == [] then []
    else
      match items[|items| - 1]
      case Arg(w) => ArgsOf(items[..|items| - 1]) + [w]
      case To(_, _) => ArgsOf(items[..|items| - 1])
  }

  /** The redirections of items around cmd, the last one outermost; > and >> write. */
  function Wrap<T>(cmd: Cmd<T>, items: seq<Item<T>>): Cmd<T> {
    if items == [] then cmd
    else
      match items[|items| - 1]
      case Arg(_) => Wrap(cmd, items[..|items| - 1])
      case To(c, file) =>
        var inner := Wrap(cmd, items[..|items| - 1]);
        if c == '<' then Redir(inner, file, O_RDONLY, 0) else Redir(inner, file, O_WRONLY_CREATE, 1)
  }

  lemma {:induction false} AddArgWrap<T>(args: seq<T>, items: seq<Item<T>>, w: T)
    ensures AddArg(Wrap(Exec(args), items), w) == Wrap(Exec(args + [w]), items)
  {
    if items != [] { AddArgWrap(args, items[..|items| - 1], w); }
  }

  lemma {:induction false} ArgsOfMore<T>(past: seq<Item<T>>, items: seq<Item<T>>)
    ensures |ArgsOf(past)| <= |ArgsOf(past + items)|
    decreases |items|
  {
    if items == [] {
      assert past + items == past;
    } else {
      var n := |items| - 1;
      assert (past + items)[..|past| + n] == past + items[..n];
      ArgsOfMore(past, items[..n]);
    }
  }

  /** The rest of a simple command, from redirections on. */
  function RedirsArgs<T>(cmd: Cmd<T>, argc: nat, ts: List<Token<T>>): Outcome<T> {
    match ParseRedirs(cmd, ts)
    case Parsed(c, rest) => ParseArgs(c, argc, rest)
    case Panic(e) => Panic(e)
  }

  lemma {:induction false} ItemsFrom<T>(past: seq<Item<T>>, items: seq<Item<T>>, rest: List<Token<T>>)
    requires Redirs(items) && |ArgsOf(past)| < MAXARGS
    ensures RedirsArgs(Wrap(Exec(ArgsOf(past)), past), |ArgsOf(past)|, Items(items, rest)) ==
      var all := past + items;
      if |ArgsOf(all)| < MAXARGS then RedirsArgs(Wrap(Exec(ArgsOf(all)), all), |ArgsOf(all)|, rest)
      else Panic(TooManyArgs)
    decreases |items|
  {
    if items == [] {
      assert past + items == past;
    } else {
      var past', more := past + [items[0]], items[1..];
      assert past' + more == past + items && past'[..|past|] == past;
      ArgsOfMore(past', more);
      match items[0]
      case To(_, _) =>
        ItemsFrom(past', more, rest);
      case Arg(w) =>
        AddArgWrap(ArgsOf(past), past, w);
        if |ArgsOf(past)| + 1 < MAXARGS { ItemsFrom(past', more, rest); }
    }
  }

  /** However words and redirections are mixed, the words go to the command in their order, and
      the redirections around it in theirs. */
  lemma SimpleCommand<T>(items: seq<Item<T>>, rest: List<Token<T>>)
    requires Redirs(items) && Stops(rest)
    ensures ParseExec(Items(items, rest)) ==
      if |ArgsOf(items)| < MAXARGS then Parsed(Wrap(Exec(ArgsOf(items)), items), rest) else Panic(TooManyArgs)
  {
    ItemsFrom([], items, rest);
    assert [] + items == items;
  }

  /** A simple command that ends in a redirection without a file, or in a parenthesis. */
  lemma SimpleErrors<T>(items: seq<Item<T>>, c: char, rest: List<Token<T>>)
    requires Redirs(items) && |ArgsOf(items)| < MAXARGS
    ensures IsRedir(c) && !(rest.Cons? && rest.head.Word?) ==>
      ParseExec(Items(items, Cons(Op(c), rest))) == Panic(MissingFile)
    ensures items != [] ==> ParseExec(Items(items, Cons(Op('('), rest))) == Panic(Syntax)
  {
    ItemsFrom([], items, Cons(Op(c), rest));
    ItemsFrom([], items, Cons(Op('('), rest));
    assert [] + items == items;
  }

  // Nothing is lost, and everything stays in order

  function WordTokens<T>(args: seq<T>): seq<Token<T>> {
    if args == [] then [] else WordTokens(args[..|args| - 1]) + [Word(args[|args| - 1])]
  }

  /** The words and operators of a tree from left to right, without its redirections. */
  function Body<T>(t: Cmd<T>): seq<Token<T>> {
    match t
    case Exec(args) => WordTokens(args)
    case Redir(c, _, _, _) => Body(c)
    case Pipe(l, r) => Body(l) + [Op('|')] + Body(r)
    case Back(c) => Body(c) + [Op('&')]
    case Sequence(l, r) => Body(l) + [Op(';')] + Body(r)
  }

  /** Its redirections from left to right. */
  function Files<T>(t: Cmd<T>): seq<Item<T>> {
    match t
    case Exec(_) => []
    case Redir(c, file, _, fd) => Files(c) + [To(if fd == 0 then '<' else '>', file)]
    case Pipe(l, r) => Files(l) + Files(r)
    case Back(c) => Files(c)
    case Sequence(l, r) => Files(l) + Files(r)
  }

  /** The same of a line: without redirections and parentheses. */
  function LineBody<T>(ts: List<Token<T>>): seq<Token<T>> {
    if ts.Nil? then []
    else if StartsRedir(ts) && ts.tail.Cons? then LineBody(ts.tail.tail)
    else if Starts(ts, '(') || Starts(ts, ')') then LineBody(ts.tail)
    else [ts.head] + LineBody(ts.tail)
  }

  function LineFiles<T>(ts: List<Token<T>>): seq<Item<T>> {
    if ts.Nil? then []
    else if StartsRedir(ts) && ts.tail.Cons? && ts.tail.head.Word? then
      [To(if ts.head.sym == '<' then '<' else '>', ts.tail.head.word)] + LineFiles(ts.tail.tail)
    else LineFiles(ts.tail)
  }

  /** t, and rest behind it, is all of the line ts, in order. */
  ghost predicate Covers<T>(ts: List<Token<T>>, t: Cmd<T>, rest: List<Token<T>>) {
    LineBody(ts) == Body(t) + LineBody(rest) && LineFiles(ts) == Files(t) + LineFiles(rest)
  }

  /** The same when the tree before is there already. */
  ghost predicate Extends<T>(before: Cmd<T>, ts: List<Token<T>>, t: Cmd<T>, rest: List<Token<T>>) {
    && Body(before) + LineBody(ts) == Body(t) + LineBody(rest)
    && Files(before) + LineFiles(ts) == Files(t) + LineFiles(rest)
  }

  lemma {:induction false} AddArgOrder<T>(t: Cmd<T>, n: nat, w: T)
    requires Simple(t, n)
    ensures Body(AddArg(t, w)) == Body(t) + [Word(w)] && Files(AddArg(t, w)) == Files(t)
  {
    match t
    case Exec(args) => assert (args + [w])[..|args|] == args;
    case Redir(c, _, _, _) => AddArgOrder(c, n, w);
  }

  lemma {:induction false} RedirsOrder<T>(cmd: Cmd<T>, ts: List<Token<T>>)
    ensures var r := ParseRedirs(cmd, ts); r.Parsed? ==> Extends(cmd, ts, r.cmd, r.rest)
    decreases ts
  {
    if StartsRedir(ts) && ts.tail.Cons? && ts.tail.head.Word? {
      var next := Redirect(cmd, ts.head.sym, ts.tail.head.word);
      RedirsOrder(next, ts.tail.tail);
      assert Files(cmd) + LineFiles(ts) == Files(next) + LineFiles(ts.tail.tail);
    }
  }

  lemma {:induction false} ArgsOrder<T>(cmd: Cmd<T>, argc: nat, ts: List<Token<T>>)
    requires Shaped(cmd) && Simple(cmd, argc)
    ensures var r := ParseArgs(cmd, argc, ts); r.Parsed? ==> Extends(cmd, ts, r.cmd, r.rest)
    decreases Size(ts)
  {
    hide ParseRedirs, AddArg, Body, Files;
    if !Stops(ts) && ts.head.Word? && argc + 1 < MAXARGS {
      var w := ts.head.word;
      var next := AddArg(cmd, w);
      SimpleAdd(cmd, argc, w);
      AddArgOrder(cmd, argc, w);
      RedirsShaped(next, ts.tail);
      RedirsOrder(next, ts.tail);
      assert Body(cmd) + LineBody(ts) == Body(next) + LineBody(ts.tail);
      var r := ParseRedirs(next, ts.tail);
      if r.Parsed? { ArgsOrder(r.cmd, argc + 1, r.rest); }
    }
  }

  lemma {:induction false} ExecOrder<T>(ts: List<Token<T>>)
    ensures var r := ParseExec(ts); r.Parsed? ==> Covers(ts, r.cmd, r.rest)
    decreases Size(ts), 1
  {
    if Starts(ts, '(') {
      LineOrder(ts.tail);
      var r := ParseLine(ts.tail);
      if r.Parsed? && Starts(r.rest, ')') { RedirsOrder(r.cmd, r.rest.tail); }
    } else {
      RedirsShaped<T>(Exec([]), ts);
      RedirsOrder<T>(Exec([]), ts);
      var r := ParseRedirs<T>(Exec([]), ts);
      if r.Parsed? { ArgsOrder(r.cmd, 0, r.rest); }
    }
  }

  lemma {:induction false} PipeOrder<T>(ts: List<Token<T>>)
    ensures var r := ParsePipe(ts); r.Parsed? ==> Covers(ts, r.cmd, r.rest)
    decreases Size(ts), 2
  {
    ExecOrder(ts);
    var r := ParseExec(ts);
    if r.Parsed? && Starts(r.rest, '|') {
      PipeOrder(r.rest.tail);
      JoinOrder(ts, r.cmd, r.rest, ParsePipe(r.rest.tail));
    }
  }

  /** Two commands and the operator between them. */
  lemma JoinOrder<T>(ts: List<Token<T>>, l: Cmd<T>, mid: List<Token<T>>, r: Outcome<T>)
    requires Covers(ts, l, mid) && (Starts(mid, '|') || Starts(mid, ';'))
    requires r.Parsed? ==> Covers(mid.tail, r.cmd, r.rest)
    ensures r.Parsed? ==> Covers(ts, if Starts(mid, '|') then Pipe(l, r.cmd) else Sequence(l, r.cmd), r.rest)
  {
    if r.Parsed? {
      var op := [mid.head];
      assert LineBody(mid) == op + LineBody(mid.tail);
      assert Body(l) + (op + (Body(r.cmd) + LineBody(r.rest))) == Body(l) + op + Body(r.cmd) + LineBody(r.rest);
      assert Files(l) + (Files(r.cmd) + LineFiles(r.rest)) == Files(l) + Files(r.cmd) + LineFiles(r.rest);
    }
  }

  lemma {:induction false} LineTailOrder<T>(all: List<Token<T>>, cmd: Cmd<T>, ts: List<Token<T>>)
    requires Covers(all, cmd, ts)
    ensures var r := LineTail(cmd, ts); r.Parsed? ==> Covers(all, r.cmd, r.rest)
    decreases Size(ts), 2
  {
    if Starts(ts, '&') {
      assert LineBody(ts) == [Op('&')] + LineBody(ts.tail);
      assert Body(cmd) + ([Op('&')] + LineBody(ts.tail)) == Body(cmd) + [Op('&')] + LineBody(ts.tail);
      LineTailOrder(all, Back(cmd), ts.tail);
    } else if Starts(ts, ';') {
      LineOrder(ts.tail);
      JoinOrder(all, cmd, ts, ParseLine(ts.tail));
    }
  }

  lemma {:induction false} LineOrder<T>(ts: List<Token<T>>)
    ensures var r := ParseLine(ts); r.Parsed? ==> Covers(ts, r.cmd, r.rest)
    decreases Size(ts), 3
  {
    PipeOrder(ts);
    var r := ParsePipe(ts);
    if r.Parsed? { LineTailOrder(ts, r.cmd, r.rest); }
  }

  /** Every word and operator of a line that parses is in the tree, in the same order, and so is
      every redirection; nothing else is. */
  lemma NothingLost<T>(ts: List<Token<T>>)
    ensures var r := ParseCmd(ts); r.Parsed? ==>
      r.rest.Nil? && Body(r.cmd) == LineBody(ts) && Files(r.cmd) == LineFiles(ts)
  {
    LineOrder(ts);
  }

  /** A parenthesis too many and one too few are errors. */
  lemma ParenErrors<T>(t: Cmd<T>, tail: List<Token<T>>)
    requires Shaped(t) && Fits(t)
    ensures ParseCmd(Print(t, 3, Cons(Op(')'), tail))) == Panic(Syntax)
    ensures ParseCmd(Cons(Op('('), Print(t, 3, Nil))) == Panic(MissingParen)
  {
    hide ParseArgs;
    LineBack(t, Cons(Op(')'), tail));
    LineBack(t, Nil);
    var inner := Print(t, 3, Nil);
    assert ParseBlock(Cons(Op('('), inner)) == Panic(MissingParen);
    assert ParsePipe(Cons(Op('('), inner)) == Panic(MissingParen);
    assert ParseLine(Cons(Op('('), inner)) == Panic(MissingParen);
  }

  lemma BlockThen<T>(inner: List<Token<T>>, c: Cmd<T>, rest: List<Token<T>>)
    requires ParseLine(inner) == Parsed(c, Cons(Op(')'), rest))
    requires rest.Cons? && (rest.head.Word? || rest.head == Op('('))
    ensures ParseCmd(Cons(Op('('), inner)) == Panic(Syntax)
  {
    hide ParseArgs;
    var ts := Cons(Op('('), inner);
    assert ParseBlock(ts) == ParseRedirs(c, rest) == Parsed(c, rest);
    assert ParsePipe(ts) == PipeTail(c, rest) == Parsed(c, rest);
    assert ParseLine(ts) == LineTail(c, rest) == Parsed(c, rest);
  }

  /** So is a word or another block behind a block. */
  lemma BlockLeft<T>(t: Cmd<T>, head: Token<T>, tail: List<Token<T>>)
    requires Shaped(t) && Fits(t) && Level(t) > 0 && (head.Word? || head == Op('('))
    ensures ParseCmd(Print(t, 0, Cons(head, tail))) == Panic(Syntax)
  {
    hide ParseLine, ParseCmd;
    var rest := Cons(head, tail);
    var inner := Print(t, 3, Cons(Op(')'), rest));
    LineBack(t, Cons(Op(')'), rest));
    BlockThen(inner, t, rest);
    assert Print(t, 0, rest) == Cons(Op('('), inner);
  }
}
