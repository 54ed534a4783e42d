/**
 * The shell's parser as it runs (sh.c): a cursor moving over the input buffer, refining the
 * grammar on token lists, and nulterminate, which turns the spans of the tree into C strings
 * by writing NULs into that same buffer.
 */
module ShellParser {
  import opened ShellGrammar

  const NUL: char := '\0'

  /** A word of the input: the characters from q up to eq. */
  datatype Span = Span(q: nat, eq: nat)

  datatype Result = Tree(cmd: Cmd<Span>) | Failed(error: Error)

  predicate Blank(c: char) {
    c == ' ' || c == '\t' || c == '\r' || c == '\n' || c == '\U{b}'
  }

  predicate Symbol(c: char) {
    c == '<' || c == '|' || c == '>' || c == '&' || c == ';' || c == '(' || c == ')'
  }

  predicate WordChar(c: char) {
    !Blank(c) && !Symbol(c)
  }

  // Tokens of a line

  function SkipBlanks(s: string, p: nat): (q: nat)
    requires p <= |s|
    ensures p <= q <= |s| && (q < |s| ==> !Blank(s[q])) && forall i :: p <= i < q ==> Blank(s[i])
    decreases |s| - p
  {
    if p < |s| && Blank(s[p]) then SkipBlanks(s, p + 1) else p
  }

  function WordEnd(s: string, p: nat): (e: nat)
    requires p <= |s|
    ensures p <= e <= |s| && (e < |s| ==> !WordChar(s[e])) && forall i :: p <= i < e ==> WordChar(s[i])
    decreases |s| - p
  {
    if p < |s| && WordChar(s[p]) then WordEnd(s, p + 1) else p
  }

  /** The token that starts at q, and where it ends. */
  function TokenAt(s: string, q: nat): (t: (Token<Span>, nat))
    requires q < |s| && !Blank(s[q])
    ensures q < t.1 <= |s|
  {
    if s[q] == '>' then
      if q + 1 < |s| && s[q + 1] == '>' then (Op('+'), q + 2) else (Op('>'), q + 1)
    else if Symbol(s[q]) then (Op(s[q]), q + 1)
    else (Word(Span(q, WordEnd(s, q))), WordEnd(s, q))
  }

  function Lex(s: string, p: nat): List<Token<Span>>
    requires p <= |s|
    decreases |s| - p
  {
    var q := SkipBlanks(s, p);
    if q == |s| then Nil else var t := TokenAt(s, q); Cons(t.0, Lex(s, t.1))
  }

  lemma SkipTwice(s: string, p: nat)
    requires p <= |s|
    ensures SkipBlanks(s, SkipBlanks(s, p)) == SkipBlanks(s, p)
  {
    var q := SkipBlanks(s, p);
    assert q < |s| ==> !Blank(s[q]);
  }

  lemma LexSkips(s: string, p: nat)
    requires p <= |s|
    ensures Lex(s, SkipBlanks(s, p)) == Lex(s, p)
  {
    var q := SkipBlanks(s, p);
    assert SkipBlanks(s, q) == q;
  }

  lemma LexNothing(s: string, p: nat)
    requires p <= |s| && SkipBlanks(s, p) == p
    ensures Lex(s, p).Nil? <==> p == |s|
  {
  }

  lemma LexStep(s: string, p: nat)
    requires p < |s| && !Blank(s[p])
    ensures Lex(s, p) == Cons(TokenAt(s, p).0, Lex(s, TokenAt(s, p).1))
  {
  }

  /** From a cursor at q the character ret is read, and the token ends at eq. */
  predicate Scanned(s: string, q: nat, ret: char, eq: nat) {
    if q < |s| && !Blank(s[q]) then
      eq == TokenAt(s, q).1 && (if TokenAt(s, q).0.Word? then ret == 'a' else ret == TokenAt(s, q).0.sym)
    else
      q == eq == |s| && ret == NUL
  }

  lemma ScannedLex(s: string, p: nat, ret: char, eq: nat)
    requires p <= |s| && Scanned(s, SkipBlanks(s, p), ret, eq)
    ensures eq <= |s|
    ensures match Lex(s, p)
            case Nil => ret == NUL && Lex(s, SkipBlanks(s, eq)) == Nil
            case Cons(Word(w), tail) =>
              ret == 'a' && w == Span(SkipBlanks(s, p), eq) && Lex(s, SkipBlanks(s, eq)) == tail
            case Cons(Op(c), tail) => ret == c && ret != NUL && ret != 'a' && Lex(s, SkipBlanks(s, eq)) == tail
  {
    var q := SkipBlanks(s, p);
    LexSkips(s, p);
    LexSkips(s, eq);
    if q < |s| {
      LexStep(s, q);
    }
  }

  // Words as text

  function Text(s: string, w: Span): string {
    if w.q <= w.eq <= |s| then s[w.q..w.eq] else ""
  }

  function ArgsText(s: string, args: seq<Span>): (r: seq<string>) {
    if args == [] then [] else ArgsText(s, args[..|args| - 1]) + [Text(s, args[|args| - 1])]
  }

  function TokensText(s: string, ts: List<Token<Span>>): List<Token<string>> {
    match ts
    case Nil => Nil
    case Cons(Word(w), tail) => Cons(Word(Text(s, w)), TokensText(s, tail))
    case Cons(Op(c), tail) => Cons(Op(c), TokensText(s, tail))
  }

  function CmdText(s: string, t: Cmd<Span>): Cmd<string> {
    match t
    case Exec(args) => Exec(ArgsText(s, args))
    case Redir(c, file, mode, fd) => Redir(CmdText(s, c), Text(s, file), mode, fd)
    case Pipe(l, r) => Pipe(CmdText(s, l), CmdText(s, r))
    case Sequence(l, r) => Sequence(CmdText(s, l), CmdText(s, r))
    case Back(c) => Back(CmdText(s, c))
  }

  function OutcomeText(s: string, r: Outcome<Span>): Outcome<string> {
    match r
    case Parsed(c, rest) => Parsed(CmdText(s, c), TokensText(s, rest))
    case Panic(e) => Panic(e)
  }

  /** w is a maximal run of word characters of s. */
  predicate WordSpan(s: string, w: Span) {
    && w.q < w.eq <= |s| && (w.eq < |s| ==> !WordChar(s[w.eq]))
    && forall i :: w.q <= i < w.eq ==> WordChar(s[i])
  }

  predicate TokenSpans(s: string, ts: List<Token<Span>>) {
    ts.Cons? ==> (ts.head.Word? ==> WordSpan(s, ts.head.word)) && TokenSpans(s, ts.tail)
  }

  predicate CmdSpans(s: string, t: Cmd<Span>) {
    match t
    case Exec(args) => forall w :: w in args ==> WordSpan(s, w)
    case Redir(c, file, _, _) => CmdSpans(s, c) && WordSpan(s, file)
    case Pipe(l, r) => CmdSpans(s, l) && CmdSpans(s, r)
    case Sequence(l, r) => CmdSpans(s, l) && CmdSpans(s, r)
    case Back(c) => CmdSpans(s, c)
  }

  predicate OutcomeSpans(s: string, r: Outcome<Span>) {
    r.Parsed? ==> CmdSpans(s, r.cmd) && TokenSpans(s, r.rest)
  }

  lemma {:induction false} LexSpans(s: string, p: nat)
    requires p <= |s|
    ensures TokenSpans(s, Lex(s, p))
    decreases |s| - p
  {
    var q := SkipBlanks(s, p);
    if q < |s| { LexSpans(s, TokenAt(s, q).1); }
  }

  // Parsing commutes with reading the words, and puts only words of the line in the tree

  lemma {:induction false} AddArgText(s: string, t: Cmd<Span>, w: Span)
    ensures CmdText(s, AddArg(t, w)) == AddArg(CmdText(s, t), Text(s, w))
    ensures CmdSpans(s, t) && WordSpan(s, w) ==> CmdSpans(s, AddArg(t, w))
  {
    match t
    case Exec(args) => assert (args + [w])[..|args|] == args;
    case Redir(c, _, _, _) => AddArgText(s, c, w);
    case _ =>
  }

  lemma {:induction false} RedirsText(s: string, t: Cmd<Span>, ts: List<Token<Span>>)
    ensures ParseRedirs(CmdText(s, t), TokensText(s, ts)) == OutcomeText(s, ParseRedirs(t, ts))
    ensures CmdSpans(s, t) && TokenSpans(s, ts) ==> OutcomeSpans(s, ParseRedirs(t, ts))
    decreases ts
  {
    hide WordSpan;
    assert ts.Cons? && TokenSpans(s, ts) ==> TokenSpans(s, ts.tail);
    if StartsRedir(ts) && ts.tail.Cons? && ts.tail.head.Word? {
      RedirsText(s, Redirect(t, ts.head.sym, ts.tail.head.word), ts.tail.tail);
    }
  }

  lemma {:induction false} ParseArgsText(s: string, t: Cmd<Span>, argc: nat, ts: List<Token<Span>>)
    ensures ParseArgs(CmdText(s, t), argc, TokensText(s, ts)) == OutcomeText(s, ParseArgs(t, argc, ts))
    ensures CmdSpans(s, t) && TokenSpans(s, ts) ==> OutcomeSpans(s, ParseArgs(t, argc, ts))
    decreases Size(ts)
  {
    hide WordSpan;
    if !Stops(ts) && ts.head.Word? && argc + 1 < MAXARGS {
      var w := ts.head.word;
      AddArgText(s, t, w);
      RedirsText(s, AddArg(t, w), ts.tail);
      var r := ParseRedirs(AddArg(t, w), ts.tail);
      if r.Parsed? { ParseArgsText(s, r.cmd, argc + 1, r.rest); }
    }
  }

  lemma {:induction false} ExecText(s: string, ts: List<Token<Span>>)
    ensures ParseExec(TokensText(s, ts)) == OutcomeText(s, ParseExec(ts))
    ensures TokenSpans(s, ts) ==> OutcomeSpans(s, ParseExec(ts))
    decreases Size(ts), 1
  {
    if Starts(ts, '(') {
      LineText(s, ts.tail);
      var r := ParseLine(ts.tail);
      if r.Parsed? && Starts(r.rest, ')') { RedirsText(s, r.cmd, r.rest.tail); }
    } else {
      RedirsText(s, Exec([]), ts);
      var r := ParseRedirs(Exec([]), ts);
      if r.Parsed? { ParseArgsText(s, r.cmd, 0, r.rest); }
    }
  }

  lemma {:induction false} PipeText(s: string, ts: List<Token<Span>>)
    ensures ParsePipe(TokensText(s, ts)) == OutcomeText(s, ParsePipe(ts))
    ensures TokenSpans(s, ts) ==> OutcomeSpans(s, ParsePipe(ts))
    decreases Size(ts), 2
  {
    ExecText(s, ts);
    var r := ParseExec(ts);
    if r.Parsed? && Starts(r.rest, '|') { PipeText(s, r.rest.tail); }
  }

  lemma {:induction false} LineTailText(s: string, t: Cmd<Span>, ts: List<Token<Span>>)
    ensures LineTail(CmdText(s, t), TokensText(s, ts)) == OutcomeText(s, LineTail(t, ts))
    ensures CmdSpans(s, t) && TokenSpans(s, ts) ==> OutcomeSpans(s, LineTail(t, ts))
    decreases Size(ts), 2
  {
    if Starts(ts, '&') {
      LineTailText(s, Back(t), ts.tail);
    } else if Starts(ts, ';') {
      LineText(s, ts.tail);
    }
  }

  lemma {:induction false} LineText(s: string, ts: List<Token<Span>>)
    ensures ParseLine(TokensText(s, ts)) == OutcomeText(s, ParseLine(ts))
    ensures TokenSpans(s, ts) ==> OutcomeSpans(s, ParseLine(ts))
    decreases Size(ts), 3
  {
    PipeText(s, ts);
    var r := ParsePipe(ts);
    if r.Parsed? { LineTailText(s, r.cmd, r.rest); }
  }

  // Printed lines

  function Render(ts: List<Token<string>>): string {
    match ts
    case Nil => ""
    case Cons(Word(w), tail) => w + " " + Render(tail)
    case Cons(Op(c), tail) => [c] + " " + Render(tail)
  }

  predicate Legal(w: string) {
    w != "" && forall i :: 0 <= i < |w| ==> WordChar(w[i])
  }

  predicate LegalTokens(ts: List<Token<string>>) {
    ts.Cons? ==> (if ts.head.Word? then Legal(ts.head.word) else Symbol(ts.head.sym)) && LegalTokens(ts.tail)
  }

  predicate LegalCmd(t: Cmd<string>) {
    match t
    case Exec(args) => forall w :: w in args ==> Legal(w)
    case Redir(c, file, _, _) => LegalCmd(c) && Legal(file)
    case Pipe(l, r) => LegalCmd(l) && LegalCmd(r)
    case Sequence(l, r) => LegalCmd(l) && LegalCmd(r)
    case Back(c) => LegalCmd(c)
  }

  lemma {:induction false} WordsLegal(args: seq<string>, rest: List<Token<string>>)
    requires (forall w :: w in args ==> Legal(w)) && LegalTokens(rest)
    ensures LegalTokens(Words(args, rest))
  {
    if args != [] { WordsLegal(args[1..], rest); }
  }

  lemma {:induction false} PrintLegal(t: Cmd<string>, k: nat, rest: List<Token<string>>)
    requires LegalCmd(t) && LegalTokens(rest)
    ensures LegalTokens(Print(t, k, rest))
    decreases t, if Level(t) > k then 1 else 0
  {
    if Level(t) > k {
      PrintLegal(t, 3, Cons(Op(')'), rest));
    } else {
      match t
      case Exec(args) => WordsLegal(args, rest);
      case Redir(c, file, _, fd) => PrintLegal(c, 0, Cons(Op(if fd == 0 then '<' else '>'), Cons(Word(file), rest)));
      case Pipe(l, r) => PrintLegal(r, 1, rest); PrintLegal(l, 0, Cons(Op('|'), Print(r, 1, rest)));
      case Back(c) => PrintLegal(c, 2, Cons(Op('&'), rest));
      case Sequence(l, r) => PrintLegal(r, 3, rest); PrintLegal(l, 2, Cons(Op(';'), Print(r, 3, rest)));
    }
  }

  /** A token and the blank after it, at p. */
  lemma TokenRendered(s: string, p: nat, w: string, more: string)
    requires p <= |s| && s[p..] == w + " " + more && w != ""
    requires Legal(w) || (|w| == 1 && Symbol(w[0]))
    ensures p + |w| + 1 <= |s| && s[p + |w| + 1..] == more && !Blank(s[p])
    ensures TokenAt(s, p).1 == p + |w| && SkipBlanks(s, p + |w|) == SkipBlanks(s, p + |w| + 1)
    ensures Legal(w) ==> TokenAt(s, p).0 == Word(Span(p, p + |w|))
    ensures Symbol(w[0]) ==> TokenAt(s, p).0 == Op(w[0])
    ensures s[p..p + |w|] == w
  {
    var tail := s[p..];
    assert forall i :: 0 <= i < |w| ==> s[p + i] == tail[i] == w[i];
    assert s[p + |w|] == tail[|w|] == ' ';
    assert s[p + |w| + 1..] == tail[|w| + 1..] == more;
    assert s[p..p + |w|] == tail[..|w|] == w;
  }

  lemma {:induction false} LexRender(s: string, p: nat, ts: List<Token<string>>)
    requires p <= |s| && s[p..] == Render(ts) && LegalTokens(ts)
    ensures TokensText(s, Lex(s, p)) == ts
    decreases ts
  {
    hide Lex, SkipBlanks, TokenAt, Blank, Symbol, WordChar;
    match ts
    case Nil =>
      LexNothing(s, p);
    case Cons(t, tail) =>
      var w := if t.Word? then t.word else [t.sym];
      TokenRendered(s, p, w, Render(tail));
      LexStep(s, p);
      LexSkips(s, p + |w|);
      LexSkips(s, p + |w| + 1);
      LexRender(s, p + |w| + 1, tail);
  }

  // Lines with any spacing

  function Glyph(t: Token<string>): string {
    match t
    case Word(w) => w
    case Op(c) => if c == '+' then ">>" else [c]
  }

  /** The tokens with these gaps before, between and after them. */
  function Spread(ts: List<Token<string>>, gaps: seq<string>): string
    requires |gaps| == Size(ts) + 1
  {
    match ts
    case Nil => gaps[0]
    case Cons(t, tail) => gaps[0] + (Glyph(t) + Spread(tail, gaps[1..]))
  }

  predicate Blanks(gap: string) {
    forall i :: 0 <= i < |gap| ==> Blank(gap[i])
  }

  /** Only two words need a gap, and a > before another one or a >>. */
  predicate Joined(a: Token<string>, b: Token<string>) {
    (a.Word? && b.Word?) || (a == Op('>') && (b == Op('>') || b == Op('+')))
  }

  predicate Spacing(ts: List<Token<string>>, gaps: seq<string>) {
    && |gaps| == Size(ts) + 1 && Blanks(gaps[0])
    && (ts.Cons? ==>
      && (ts.tail.Cons? && Joined(ts.head, ts.tail.head) ==> gaps[1] != "")
      && Spacing(ts.tail, gaps[1..]))
  }

  predicate LegalToken(t: Token<string>) {
    if t.Word? then Legal(t.word) else t.sym == '+' || Symbol(t.sym)
  }

  predicate AllLegal(ts: List<Token<string>>) {
    ts.Cons? ==> LegalToken(ts.head) && AllLegal(ts.tail)
  }

  lemma {:induction false} SkipGap(s: string, p: nat, gap: string, more: string)
    requires p <= |s| && s[p..] == gap + more && Blanks(gap)
    ensures p + |gap| <= |s| && s[p + |gap|..] == more && SkipBlanks(s, p) == SkipBlanks(s, p + |gap|)
    decreases |gap|
  {
    if gap != "" {
      assert s[p] == s[p..][0] == gap[0];
      assert s[p + 1..] == s[p..][1..] == gap[1..] + more;
      SkipGap(s, p + 1, gap[1..], more);
    } else {
      assert gap + more == more;
    }
  }

  /** How the text behind a token may begin. */
  predicate Follows(t: Token<string>, more: string) {
    && (t.Word? && more != "" ==> !WordChar(more[0]))
    && (t == Op('>') && more != "" ==> more[0] != '>')
  }

  lemma {:induction false} SpreadEnds(t: Token<string>, ts: List<Token<string>>, gaps: seq<string>)
    requires Spacing(Cons(t, ts), [""] + gaps) && AllLegal(ts) && LegalToken(t)
    ensures Follows(t, Spread(ts, gaps))
  {
    assert ([""] + gaps)[1..] == gaps;
    var more := Spread(ts, gaps);
    if gaps[0] != "" {
      assert more[0] == gaps[0][0];
    } else if ts.Cons? {
      var g := Glyph(ts.head);
      assert more == "" + (g + Spread(ts.tail, gaps[1..]));
      assert g != "" && more[0] == g[0];
    }
  }

  lemma GlyphLexed(s: string, p: nat, t: Token<string>, more: string)
    requires p <= |s| && s[p..] == Glyph(t) + more && LegalToken(t) && Follows(t, more)
    ensures var n := |Glyph(t)|;
      && p < p + n <= |s| && s[p + n..] == more && !Blank(s[p])
      && TokenAt(s, p) == (if t.Word? then Word(Span(p, p + n)) else Op(t.sym), p + n)
      && s[p..p + n] == Glyph(t)
  {
    var w, rest := Glyph(t), s[p..];
    assert forall i :: 0 <= i < |w| ==> s[p + i] == rest[i] == w[i];
    assert s[p + |w|..] == rest[|w|..] == more;
    assert s[p..p + |w|] == rest[..|w|] == w;
    assert more != "" ==> s[p + |w|] == rest[|w|] == more[0];
  }

  /** One token and the gap in front of it. */
  lemma SpreadStep(s: string, p: nat, t: Token<string>, tail: List<Token<string>>, gaps: seq<string>)
    requires Spacing(Cons(t, tail), gaps) && AllLegal(tail) && LegalToken(t)
    requires p <= |s| && s[p..] == Spread(Cons(t, tail), gaps)
    ensures var q := p + |gaps[0]|;
            var n := |Glyph(t)|;
      && q < q + n <= |s| && s[q + n..] == Spread(tail, gaps[1..])
      && Lex(s, p) == Cons(if t.Word? then Word(Span(q, q + n)) else Op(t.sym), Lex(s, q + n))
      && s[q..q + n] == Glyph(t)
  {
    hide *;
    SpacingHead(t, tail, gaps);
    var q, more := p + |gaps[0]|, Spread(tail, gaps[1..]);
    SkipGap(s, p, gaps[0], Glyph(t) + more);
    SpreadEnds(t, tail, gaps[1..]);
    GlyphLexed(s, q, t, more);
    LexSame(s, p, q);
    LexStep(s, q);
  }

  lemma SpacingHead(t: Token<string>, tail: List<Token<string>>, gaps: seq<string>)
    requires Spacing(Cons(t, tail), gaps)
    ensures |gaps| == Size(tail) + 2 && Blanks(gaps[0])
    ensures Spacing(tail, gaps[1..]) && Spacing(Cons(t, tail), [""] + gaps[1..])
    ensures Spread(Cons(t, tail), gaps) == gaps[0] + (Glyph(t) + Spread(tail, gaps[1..]))
  {
    assert Blanks("");
    hide Blanks, Joined, Glyph;
    assert ([""] + gaps[1..])[1..] == gaps[1..];
  }

  /** However a line is spaced, its tokens are the ones it was made of. */
  lemma {:induction false} LexSpread(s: string, p: nat, ts: List<Token<string>>, gaps: seq<string>)
    requires Spacing(ts, gaps) && AllLegal(ts) && p <= |s| && s[p..] == Spread(ts, gaps)
    ensures TokensText(s, Lex(s, p)) == ts
    decreases ts
  {
    hide Lex, Joined, Blanks, LegalToken;
    match ts
    case Nil =>
      assert gaps[0] + "" == gaps[0];
      SkipGap(s, p, gaps[0], "");
      LexEnd(s, p);
    case Cons(t, tail) =>
      SpreadStep(s, p, t, tail, gaps);
      LexSpread(s, p + |gaps[0]| + |Glyph(t)|, tail, gaps[1..]);
  }

  lemma LexSame(s: string, p: nat, q: nat)
    requires p <= |s| && q <= |s| && SkipBlanks(s, p) == SkipBlanks(s, q)
    ensures Lex(s, p) == Lex(s, q)
  {
  }

  lemma LexEnd(s: string, p: nat)
    requires p <= |s| && SkipBlanks(s, p) == SkipBlanks(s, |s|)
    ensures Lex(s, p) == Nil
  {
  }

  /** A command written with any spacing, and with > or >> for each redirection of output, is
      recovered, unless a simple command has too many words. */
  lemma AnySpacing(t: Cmd<string>, ts: List<Token<string>>, gaps: seq<string>, s: string)
    requires Shaped(t) && Plain(ts) == Print(t, 3, Nil)
    requires Spacing(ts, gaps) && AllLegal(ts) && s == Spread(ts, gaps)
    ensures OutcomeText(s, ParseCmd(Lex(s, 0))) == if Fits(t) then Parsed(t, Nil) else Panic(TooManyArgs)
  {
    hide Lex, Plain, Spread, Spacing, Print, ParseLine;
    assert s[0..] == s;
    LexSpread(s, 0, ts, gaps);
    LineText(s, Lex(s, 0));
    AppendIsWrite(ts);
    TokenRoundTrip(t);
    PlainNil(ParseCmd(ts));
  }

  lemma PlainNil(r: Outcome<string>)
    ensures PlainOutcome(r).Parsed? && PlainOutcome(r).rest.Nil? ==> PlainOutcome(r) == r
    ensures r.Panic? ==> PlainOutcome(r) == r
  {
  }

  /** The line that t is printed as. */
  function Line(t: Cmd<string>): string {
    Render(Print(t, 3, Nil))
  }

  /** Parsing a printed command recovers it, unless a simple command has too many words, and
      then it panics for that reason. */
  lemma RoundTrip(t: Cmd<string>)
    requires Shaped(t) && LegalCmd(t)
    ensures OutcomeText(Line(t), ParseCmd(Lex(Line(t), 0))) == if Fits(t) then Parsed(t, Nil) else Panic(TooManyArgs)
  {
    var s, ts := Line(t), Print(t, 3, Nil);
    PrintLegal(t, 3, Nil);
    assert s[0..] == s;
    LexRender(s, 0, ts);
    LineText(s, Lex(s, 0));
    TokenRoundTrip(t);
  }

  // Reading the words back out of the buffer

  function CString(b: seq<char>, q: nat): string
    decreases |b| - q
  {
    if q < |b| && b[q] != NUL then [b[q]] + CString(b, q + 1) else ""
  }

  function ArgsStrings(b: seq<char>, args: seq<Span>): seq<string> {
    if args == [] then [] else ArgsStrings(b, args[..|args| - 1]) + [CString(b, args[|args| - 1].q)]
  }

  function CmdStrings(b: seq<char>, t: Cmd<Span>): Cmd<string> {
    match t
    case Exec(args) => Exec(ArgsStrings(b, args))
    case Redir(c, file, mode, fd) => Redir(CmdStrings(b, c), CString(b, file.q), mode, fd)
    case Pipe(l, r) => Pipe(CmdStrings(b, l), CmdStrings(b, r))
    case Sequence(l, r) => Sequence(CmdStrings(b, l), CmdStrings(b, r))
    case Back(c) => Back(CmdStrings(b, c))
  }

  /** The places nulterminate writes to. */
  function Ends(t: Cmd<Span>): set<nat> {
    match t
    case Exec(args) => set w | w in args :: w.eq
    case Redir(c, file, _, _) => Ends(c) + {file.eq}
    case Pipe(l, r) => Ends(l) + Ends(r)
    case Sequence(l, r) => Ends(l) + Ends(r)
    case Back(c) => Ends(c)
  }

  predicate Nulled(b: seq<char>, b': seq<char>, ends: set<nat>) {
    |b'| == |b| && forall i :: 0 <= i < |b| ==> b'[i] == if i in ends then NUL else b[i]
  }

  /** The buffer holds s as a C string. */
  predicate Holds(b: seq<char>, s: string) {
    |s| < |b| && b[|s|] == NUL && forall i :: 0 <= i < |s| ==> b[i] == s[i] && s[i] != NUL
  }

  /** No place in ends is inside a word of s. */
  predicate Outside(s: string, ends: set<nat>) {
    forall e :: e in ends ==> e <= |s| && (e < |s| ==> !WordChar(s[e]))
  }

  lemma {:induction false} CStringUpTo(b: seq<char>, q: nat, e: nat)
    requires q <= e < |b| && b[e] == NUL && forall i :: q <= i < e ==> b[i] != NUL
    ensures CString(b, q) == b[q..e]
    decreases e - q
  {
    if q < e {
      CStringUpTo(b, q + 1, e);
      assert b[q..e] == [b[q]] + b[q + 1..e];
    }
  }

  lemma WordReadsBack(s: string, b: seq<char>, b': seq<char>, ends: set<nat>, w: Span)
    requires Holds(b, s) && Nulled(b, b', ends) && Outside(s, ends) && WordSpan(s, w) && w.eq in ends
    ensures CString(b', w.q) == Text(s, w)
  {
    CStringUpTo(b', w.q, w.eq);
    assert b'[w.q..w.eq] == s[w.q..w.eq];
  }

  lemma {:induction false} ArgsReadBack(s: string, b: seq<char>, b': seq<char>, ends: set<nat>, args: seq<Span>)
    requires Holds(b, s) && Nulled(b, b', ends) && Outside(s, ends)
    requires forall w :: w in args ==> WordSpan(s, w) && w.eq in ends
    ensures ArgsStrings(b', args) == ArgsText(s, args)
  {
    if args != [] {
      ArgsReadBack(s, b, b', ends, args[..|args| - 1]);
      WordReadsBack(s, b, b', ends, args[|args| - 1]);
    }
  }

  lemma {:induction false} CmdReadsBack(s: string, b: seq<char>, b': seq<char>, ends: set<nat>, t: Cmd<Span>)
    requires Holds(b, s) && Nulled(b, b', ends) && Outside(s, ends) && CmdSpans(s, t) && Ends(t) <= ends
    ensures CmdStrings(b', t) == CmdText(s, t)
  {
    match t
    case Exec(args) =>
      assert forall w :: w in args ==> w.eq in Ends(t);
      ArgsReadBack(s, b, b', ends, args);
    case Redir(c, file, _, _) =>
      CmdReadsBack(s, b, b', ends, c);
      WordReadsBack(s, b, b', ends, file);
    case Pipe(l, r) =>
      CmdReadsBack(s, b, b', ends, l);
      CmdReadsBack(s, b, b', ends, r);
    case Sequence(l, r) =>
      CmdReadsBack(s, b, b', ends, l);
      CmdReadsBack(s, b, b', ends, r);
    case Back(c) =>
      CmdReadsBack(s, b, b', ends, c);
  }

  lemma {:induction false} EndsOutside(s: string, t: Cmd<Span>)
    requires CmdSpans(s, t)
    ensures Outside(s, Ends(t))
  {
    match t
    case Exec(_) =>
    case Redir(c, _, _, _) => EndsOutside(s, c);
    case Pipe(l, r) => EndsOutside(s, l); EndsOutside(s, r);
    case Sequence(l, r) => EndsOutside(s, l); EndsOutside(s, r);
    case Back(c) => EndsOutside(s, c);
  }

  /** Every word of a parsed line ends inside the buffer, and no end is inside a word. */
  lemma EndsInside(s: string, t: Cmd<Span>)
    requires ParseCmd(Lex(s, 0)) == Parsed(t, Nil)
    ensures CmdSpans(s, t) && Outside(s, Ends(t))
  {
    LexSpans(s, 0);
    LineText(s, Lex(s, 0));
    EndsOutside(s, t);
  }

  /** Once every end is nulled, each word of a parsed line reads back as the token it was. */
  lemma NulTerminated(s: string, b: seq<char>, b': seq<char>, t: Cmd<Span>)
    requires Holds(b, s) && ParseCmd(Lex(s, 0)) == Parsed(t, Nil) && Nulled(b, b', Ends(t))
    ensures CmdStrings(b', t) == CmdText(s, t)
  {
    EndsInside(s, t);
    CmdReadsBack(s, b, b', Ends(t), t);
  }

  /** End to end: the strings read out of the buffer after parsing a printed command are the
      words of that command. */
  lemma PrintedReadsBack(t: Cmd<string>, b: seq<char>, b': seq<char>, c: Cmd<Span>)
    requires Shaped(t) && LegalCmd(t) && Holds(b, Line(t))
    requires ParseCmd(Lex(Line(t), 0)) == Parsed(c, Nil) && Nulled(b, b', Ends(c))
    ensures CmdStrings(b', c) == t
  {
    RoundTrip(t);
    NulTerminated(Line(t), b, b', c);
  }

  // The parser over the buffer

  /** What the parse methods promise: the outcome of the grammar, and the cursor at its rest. */
  ghost predicate Agrees(spec: Outcome<Span>, r: Result, rest: List<Token<Span>>) {
    match spec
    case Parsed(c, ts) => r == Tree(c) && rest == ts
    case Panic(e) => r == Failed(e)
  }

  class Parser {
    const buf: array<char>
    const es: nat
    ghost const s: string
    var ps: nat

    ghost predicate Valid()
      reads this, buf
    {
      es == |s| < buf.Length && Holds(buf[..], s) && ps <= es
    }

    /** The tokens still ahead of the cursor. */
    ghost function Rest(): List<Token<Span>>
      requires ps <= |s|
      reads this
    {
      Lex(s, ps)
    }

    /** strlen finds the end of the line. */
    constructor (buf: array<char>, ghost s: string)
      requires Holds(buf[..], s)
      ensures Valid() && this.buf == buf && this.s == s && ps == 0
    {
      var n := 0;
      while buf[n] != NUL
        invariant n <= |s|
        decreases |s| - n
      {
        n := n + 1;
      }
      this.buf := buf;
      this.es := n;
      this.s := s;
      this.ps := 0;
    }

    /** Skip blanks from p on. */
    method Skip(p: nat) returns (q: nat)
      requires Valid() && p <= es
      ensures q <= es && q == SkipBlanks(s, p)
    {
      q := p;
      while q < es && Blank(buf[q])
        invariant p <= q <= es && SkipBlanks(s, q) == SkipBlanks(s, p)
      {
        q := q + 1;
      }
    }

    /** The end of the word from q on. */
    method Scan(q: nat) returns (eq: nat)
      requires Valid() && q <= es
      ensures eq <= es && eq == WordEnd(s, q)
    {
      eq := q;
      while eq < es && !Blank(buf[eq]) && !Symbol(buf[eq])
        invariant q <= eq <= es && WordEnd(s, eq) == WordEnd(s, q)
      {
        eq := eq + 1;
      }
    }

    /** The token at q. */
    method TokenFrom(q: nat) returns (ret: char, eq: nat)
      requires Valid() && q <= es && SkipBlanks(s, q) == q
      ensures Scanned(s, q, ret, eq)
    {
      hide WordEnd;
      ret, eq := buf[q], q;
      if ret == NUL {
      } else if ret == '>' {
        eq := eq + 1;
        if buf[eq] == '>' {
          ret := '+';
          eq := eq + 1;
        }
      } else if Symbol(ret) {
        eq := eq + 1;
      } else {
        ret := 'a';
        eq := Scan(eq);
      }
    }

    method Gettoken() returns (ret: char, q: nat, eq: nat)
      requires Valid()
      modifies `ps
      ensures Valid()
      ensures match old(Rest())
              case Nil => ret == NUL && Rest() == Nil
              case Cons(Word(w), tail) => ret == 'a' && w == Span(q, eq) && Rest() == tail
              case Cons(Op(c), tail) => ret == c && ret != NUL && ret != 'a' && Rest() == tail
    {
      hide Lex, Scanned, Blank;
      q := Skip(ps);
      SkipTwice(s, ps);
      ret, eq := TokenFrom(q);
      ScannedLex(s, ps, ret, eq);
      ps := Skip(eq);
    }

    /** The cursor moves past blanks only, and stands before one of toks. */
    method Peek(toks: string) returns (found: bool)
      requires Valid() && forall c :: c in toks ==> Symbol(c)
      modifies `ps
      ensures Valid() && Rest() == old(Rest()) && ps == SkipBlanks(s, ps)
      ensures found <==>
        Rest().Cons? && Rest().head.Op? && (if Rest().head.sym == '+' then '>' else Rest().head.sym) in toks
    {
      LexSkips(s, ps);
      ps := Skip(ps);
      found := buf[ps] != NUL && buf[ps] in toks;
    }

    method Parseredirs(cmd: Cmd<Span>) returns (r: Result)
      requires Valid()
      modifies `ps
      ensures Valid() && Agrees(ParseRedirs(cmd, old(Rest())), r, Rest())
    {
      hide Lex, Holds;
      var c := cmd;
      var more := Peek("<>");
      while more
        invariant Valid() && more == StartsRedir(Rest())
        invariant ParseRedirs(c, Rest()) == ParseRedirs(cmd, old(Rest()))
        decreases Rest()
      {
        var tok, _, _ := Gettoken();
        var word, q, eq := Gettoken();
        if word != 'a' {
          return Failed(MissingFile);
        }
        c := if tok == '<' then Redir(c, Span(q, eq), O_RDONLY, 0) else Redir(c, Span(q, eq), O_WRONLY_CREATE, 1);
        more := Peek("<>");
      }
      return Tree(c);
    }

    /** The argument loop of parseexec; the exec node inside cmd is still empty. */
    method Parseargs(cmd: Cmd<Span>) returns (r: Result)
      requires Valid()
      modifies `ps
      ensures Valid() && Agrees(ParseArgs(cmd, 0, old(Rest())), r, Rest())
    {
      hide Lex, Holds, ParseRedirs, AddArg, SkipBlanks;
      var c, argc := cmd, 0;
      var stop := Peek("|)&;");
      while !stop
        invariant Valid() && 0 <= argc && stop == (Stops(Rest()) && Rest().Cons?)
        invariant ParseArgs(c, argc, Rest()) == ParseArgs(cmd, 0, old(Rest()))
        decreases Size(Rest())
      {
        var tok, q, eq := Gettoken();
        if tok == NUL {
          return Tree(c);
        }
        if tok != 'a' {
          return Failed(Syntax);
        }
        argc := argc + 1;
        if argc >= MAXARGS {
          return Failed(TooManyArgs);
        }
        r := Parseredirs(AddArg(c, Span(q, eq)));
        if r.Failed? {
          return;
        }
        c := r.cmd;
        stop := Peek("|)&;");
      }
      return Tree(c);
    }

    method Parseexec() returns (r: Result)
      requires Valid()
      modifies `ps
      ensures Valid() && Agrees(ParseExec(old(Rest())), r, Rest())
      decreases Size(Rest()), 1
    {
      hide Lex, Holds;
      var block := Peek("(");
      if block {
        r := Parseblock();
      } else {
        r := Parseredirs(Exec([]));
        if r.Tree? {
          r := Parseargs(r.cmd);
        }
      }
    }

    method Parseblock() returns (r: Result)
      requires Valid() && Starts(Rest(), '(')
      modifies `ps
      ensures Valid() && Agrees(ParseBlock(old(Rest())), r, Rest())
      decreases Size(Rest()), 0
    {
      hide Lex, Holds;
      var _, _, _ := Gettoken();
      r := Parseline();
      if r.Tree? {
        var closed := Peek(")");
        if !closed {
          return Failed(MissingParen);
        }
        var _, _, _ := Gettoken();
        r := Parseredirs(r.cmd);
      }
    }

    method Parsepipe() returns (r: Result)
      requires Valid()
      modifies `ps
      ensures Valid() && Agrees(ParsePipe(old(Rest())), r, Rest())
      decreases Size(Rest()), 2
    {
      hide Lex, Holds;
      r := Parseexec();
      if r.Tree? {
        var piped := Peek("|");
        if piped {
          var _, _, _ := Gettoken();
          var right := Parsepipe();
          r := if right.Tree? then Tree(Pipe(r.cmd, right.cmd)) else right;
        }
      }
    }

    method Parseline() returns (r: Result)
      requires Valid()
      modifies `ps
      ensures Valid() && Agrees(ParseLine(old(Rest())), r, Rest())
      decreases Size(Rest()), 3
    {
      hide Lex, Holds;
      r := Parsepipe();
      if r.Failed? {
        return;
      }
      var c := r.cmd;
      var back := Peek("&");
      while back
        invariant Valid() && back == Starts(Rest(), '&')
        invariant LineTail(c, Rest()) == ParseLine(old(Rest())) && Size(Rest()) <= Size(old(Rest()))
        decreases Size(Rest())
      {
        var _, _, _ := Gettoken();
        c := Back(c);
        back := Peek("&");
      }
      var list := Peek(";");
      if list {
        var _, _, _ := Gettoken();
        r := Parseline();
        return if r.Tree? then Tree(Sequence(c, r.cmd)) else r;
      }
      return Tree(c);
    }

    /** NUL-terminate every word of the tree, in place. */
    method Nulterminate(t: Cmd<Span>)
      requires forall e :: e in Ends(t) ==> e < buf.Length
      modifies buf
      ensures Nulled(old(buf[..]), buf[..], Ends(t))
      decreases t
    {
      match t
      case Exec(args) =>
        var i := 0;
        while i < |args|
          invariant 0 <= i <= |args| && Nulled(old(buf[..]), buf[..], Ends(Exec(args[..i])))
        {
          assert args[..i + 1] == args[..i] + [args[i]] && args[i].eq in Ends(t);
          buf[args[i].eq] := NUL;
          i := i + 1;
        }
        assert args[..i] == args;
      case Redir(c, file, _, _) =>
        assert Ends(t) == Ends(c) + {file.eq};
        Nulterminate(c);
        buf[file.eq] := NUL;
      case Pipe(l, r) =>
        assert Ends(t) == Ends(l) + Ends(r);
        Nulterminate(l);
        Nulterminate(r);
      case Sequence(l, r) =>
        assert Ends(t) == Ends(l) + Ends(r);
        Nulterminate(l);
        Nulterminate(r);
      case Back(c) =>
        assert Ends(t) == Ends(c);
        Nulterminate(c);
    }

    /** The whole line parses as the grammar says, and afterwards every word of the tree is a
        C string in the buffer, equal to the token it came from. */
    method Parsecmd() returns (r: Result)
      requires Valid() && ps == 0
      modifies `ps, buf
      ensures match ParseCmd(Lex(s, 0))
              case Parsed(t, _) =>
                r == Tree(t) && CmdStrings(buf[..], t) == CmdText(s, t) && Nulled(old(buf[..]), buf[..], Ends(t))
              case Panic(e) => r == Failed(e) && buf[..] == old(buf[..])
    {
      hide Lex, Holds;
      r := Parseline();
      if r.Tree? {
        var _ := Peek("");
        LexNothing(s, ps);
        if ps != es {
          return Failed(Syntax);
        }
        EndsInside(s, r.cmd);
        Nulterminate(r.cmd);
        NulTerminated(s, old(buf[..]), buf[..], r.cmd);
      }
    }
  }
}
