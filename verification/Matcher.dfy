/**
 * grep's regular expressions (grep.c).  A pattern denotes a row of items, each a character
 * class taken once or any number of times, perhaps anchored at either end of the line; the
 * matcher finds out whether some part of the line splits into pieces that spell the items.
 */
module Matcher {
  datatype Item = Once(c: char) | Star(c: char)

  /** items in order; end: only the end of the line may follow them. */
  datatype Pattern = Pattern(items: seq<Item>, end: bool)

  /** The meaning of a pattern after any leading ^.  A character before * is starred whatever
      it is; $ is an anchor only as the last character, and * is itself when it comes first. */
  function Compile(re: string): Pattern {
    if re == "" then Pattern([], false)
    else if |re| > 1 && re[1] == '*' then Prepend(Star(re[0]), Compile(re[2..]))
    else if re == "$" then Pattern([], true)
    else Prepend(Once(re[0]), Compile(re[1..]))
  }

  function Prepend(i: Item, p: Pattern): Pattern {
    Pattern([i] + p.items, p.end)
  }

  function Glyph(i: Item): string {
    if i.Star? then [i.c, '*'] else [i.c]
  }

  /** A pattern as grep's user writes it. */
  function Show(p: Pattern): string
    decreases |p.items|
  {
    if p.items != [] then Glyph(p.items[0]) + Show(Pattern(p.items[1..], p.end))
    else if p.end then "$"
    else ""
  }

  /** What can be written: behind a single character a * would star it, and a last $ would be
      an anchor. */
  predicate Writable(p: Pattern) {
    && (forall k :: 0 < k < |p.items| && p.items[k].c == '*' ==> p.items[k - 1].Star?)
    && (p.items != [] && p.items[|p.items| - 1] == Once('$') ==> p.end)
  }

  /** May the text more follow the item? */
  predicate Precedes(i: Item, more: string) {
    i.Star? || (if more == "" then i.c != '$' else more[0] != '*')
  }

  lemma CompileGlyph(i: Item, more: string)
    requires Precedes(i, more)
    ensures Compile(Glyph(i) + more) == Prepend(i, Compile(more))
  {
    var re := Glyph(i) + more;
    assert re != "" && re[0] == i.c;
    if i.Star? {
      assert re[1] == '*' && re[2..] == more;
    } else {
      assert |re| > 1 ==> re[1] == more[0];
      assert re[1..] == more;
    }
  }

  lemma ShowPrepend(i: Item, p: Pattern)
    ensures Show(Prepend(i, p)) == Glyph(i) + Show(p)
    ensures Writable(Prepend(i, p)) <==> Writable(p) && Precedes(i, Show(p))
  {
    var q := Prepend(i, p);
    assert q.items[1..] == p.items;
    if p.items != [] {
      assert Show(p)[0] == p.items[0].c == q.items[1].c;
      forall k | 0 < k < |p.items| ensures p.items[k] == q.items[k + 1] && p.items[k - 1] == q.items[k] {
      }
    }
  }

  /** No two texts mean the same pattern, and every meaning can be written. */
  lemma {:induction false} CompiledText(re: string)
    ensures Show(Compile(re)) == re && Writable(Compile(re))
    decreases |re|
  {
    hide Writable;
    if re == "" || re == "$" {
      Bare(re);
    } else {
      var i := if |re| > 1 && re[1] == '*' then Star(re[0]) else Once(re[0]);
      var more := re[|Glyph(i)|..];
      assert re == Glyph(i) + more;
      CompiledText(more);
      CompileGlyph(i, more);
      ShowPrepend(i, Compile(more));
    }
  }

  lemma Bare(re: string)
    requires re == "" || re == "$"
    ensures Show(Compile(re)) == re && Writable(Compile(re))
  {
  }

  /** A pattern is what its text means exactly when it can be written. */
  lemma TextCompiled(p: Pattern)
    ensures Compile(Show(p)) == p <==> Writable(p)
  {
    if Writable(p) {
      WrittenCompiles(p);
    } else {
      CompiledText(Show(p));
    }
  }

  lemma {:induction false} WrittenCompiles(p: Pattern)
    requires Writable(p)
    ensures Compile(Show(p)) == p
    decreases |p.items|
  {
    if p.items != [] {
      hide Writable, Show;
      var i, rest := p.items[0], Pattern(p.items[1..], p.end);
      assert p == Prepend(i, rest);
      ShowPrepend(i, rest);
      WrittenCompiles(rest);
      CompileGlyph(i, Show(rest));
    }
  }

  predicate Takes(c: char, x: char) {
    c == '.' || c == x
  }

  /** piece is one instance of the item. */
  predicate Spells(i: Item, piece: string) {
    (forall k :: 0 <= k < |piece| ==> Takes(i.c, piece[k])) && (i.Once? ==> |piece| == 1)
  }

  function Concat(pieces: seq<string>): string {
    if pieces == [] then "" else pieces[0] + Concat(pieces[1..])
  }

  /** text begins with pieces that spell the items one for one. */
  ghost predicate Splits(p: Pattern, pieces: seq<string>, text: string) {
    && |pieces| == |p.items| && (forall i :: 0 <= i < |pieces| ==> Spells(p.items[i], pieces[i]))
    && Concat(pieces) <= text && (p.end ==> Concat(pieces) == text)
  }

  ghost predicate MatchesPrefix(p: Pattern, text: string) {
    exists pieces :: Splits(p, pieces, text)
  }

  /** re matches somewhere in the line, or at its start if re begins with ^. */
  ghost predicate Matches(re: string, text: string) {
    if re != "" && re[0] == '^' then MatchesPrefix(Compile(re[1..]), text)
    else exists i :: 0 <= i <= |text| && MatchesPrefix(Compile(re), text[i..])
  }

  lemma EmptyMatches(end: bool, text: string)
    ensures MatchesPrefix(Pattern([], end), text) <==> !end || text == ""
  {
    if !end || text == "" { assert Splits(Pattern([], end), [], text); }
  }

  /** The first item spells text[..k] and the others go on from there. */
  lemma SplitFirst(i: Item, p: Pattern, text: string, pieces: seq<string>)
    requires Splits(Prepend(i, p), pieces, text)
    ensures var k := |pieces[0]|; k <= |text| && Spells(i, text[..k]) && MatchesPrefix(p, text[k..])
  {
    var first, rest := pieces[0], pieces[1..];
    var k := |first|;
    assert Concat(pieces) == first + Concat(rest);
    assert text[..k] == Concat(pieces)[..k] == first;
    assert text[k..|Concat(pieces)|] == Concat(pieces)[k..] == Concat(rest);
    forall j | 0 <= j < |rest| ensures Spells(p.items[j], rest[j]) {
      assert Spells(Prepend(i, p).items[j + 1], pieces[j + 1]);
    }
    assert Spells(Prepend(i, p).items[0], pieces[0]);
    assert Splits(p, rest, text[k..]);
  }

  lemma JoinFirst(i: Item, p: Pattern, text: string, k: nat)
    requires k <= |text| && Spells(i, text[..k]) && MatchesPrefix(p, text[k..])
    ensures MatchesPrefix(Prepend(i, p), text)
  {
    var rest :| Splits(p, rest, text[k..]);
    var pieces := [text[..k]] + rest;
    assert pieces[1..] == rest;
    assert text == text[..k] + text[k..];
    assert Splits(Prepend(i, p), pieces, text);
  }

  lemma OnceMatches(c: char, p: Pattern, text: string)
    ensures MatchesPrefix(Prepend(Once(c), p), text) <==> text != "" && Takes(c, text[0]) && MatchesPrefix(p, text[1..])
  {
    if text != "" && Takes(c, text[0]) && MatchesPrefix(p, text[1..]) { JoinFirst(Once(c), p, text, 1); }
    if pieces :| Splits(Prepend(Once(c), p), pieces, text) {
      SplitFirst(Once(c), p, text, pieces);
      assert Spells(Prepend(Once(c), p).items[0], pieces[0]);
      assert text[..1][0] == text[0];
    }
  }

  /** No character of re is special. */
  predicate Ordinary(re: string) {
    forall i :: 0 <= i < |re| ==> re[i] != '.' && re[i] != '*' && re[i] != '$' && re[i] != '^'
  }

  lemma {:induction false} OrdinaryPrefix(re: string, text: string)
    requires Ordinary(re)
    ensures MatchesPrefix(Compile(re), text) <==> re <= text
    ensures MatchesPrefix(Compile(re + "$"), text) <==> re == text
    decreases |re|
  {
    EmptyMatches(false, text);
    EmptyMatches(true, text);
    if re == "" {
      assert re + "$" == "$";
    } else {
      assert (re + "$")[1..] == re[1..] + "$";
      OnceMatches(re[0], Compile(re[1..]), text);
      OnceMatches(re[0], Compile(re[1..] + "$"), text);
      if text != "" {
        OrdinaryPrefix(re[1..], text[1..]);
        assert re == [re[0]] + re[1..] && text == [text[0]] + text[1..];
      }
    }
  }

  /** A pattern without special characters matches the lines that contain it; with a ^ those
      that begin with it, with a $ those that end with it. */
  lemma OrdinaryMatches(re: string, text: string)
    requires Ordinary(re)
    ensures Matches(re, text) <==> exists i :: 0 <= i <= |text| && re <= text[i..]
    ensures Matches("^" + re, text) <==> re <= text
    ensures Matches(re + "$", text) <==> |re| <= |text| && text[|text| - |re|..] == re
  {
    forall i | 0 <= i <= |text|
      ensures MatchesPrefix(Compile(re), text[i..]) <==> re <= text[i..]
      ensures MatchesPrefix(Compile(re + "$"), text[i..]) <==> re == text[i..]
    {
      OrdinaryPrefix(re, text[i..]);
    }
    OrdinaryPrefix(re, text);
    assert ("^" + re)[1..] == re;
    assert (re + "$")[0] != '^';
    if |re| <= |text| {
      assert text[|text| - |re|..] == re ==> MatchesPrefix(Compile(re + "$"), text[|text| - |re|..]);
    }
  }

  /** c taken k times, and the rest of the pattern after that. */
  ghost predicate StarAt(c: char, p: Pattern, text: string, k: nat) {
    k <= |text| && (forall j :: 0 <= j < k ==> Takes(c, text[j])) && MatchesPrefix(p, text[k..])
  }

  lemma StarMatches(c: char, p: Pattern, text: string)
    ensures MatchesPrefix(Prepend(Star(c), p), text) <==> exists k: nat :: StarAt(c, p, text, k)
  {
    if k: nat :| StarAt(c, p, text, k) {
      JoinFirst(Star(c), p, text, k);
    }
    if pieces :| Splits(Prepend(Star(c), p), pieces, text) {
      SplitFirst(Star(c), p, text, pieces);
      var k := |pieces[0]|;
      assert forall j :: 0 <= j < k ==> text[j] == text[..k][j];
      assert StarAt(c, p, text, k);
    }
  }

  /** A dot takes any character, and a starred item any run of its character, possibly empty. */
  lemma SpecialMatches(c: char, re: string, text: string)
    ensures (re != "" ==> re[0] != '*') ==>
      (MatchesPrefix(Compile("." + re), text) <==> text != "" && MatchesPrefix(Compile(re), text[1..]))
    ensures MatchesPrefix(Compile(".*" + re), text) <==>
      exists k :: 0 <= k <= |text| && MatchesPrefix(Compile(re), text[k..])
    ensures c != '.' ==> (MatchesPrefix(Compile([c, '*'] + re), text) <==>
      exists k :: 0 <= k <= |text| && Run(c, text, k) && MatchesPrefix(Compile(re), text[k..]))
  {
    if re != "" ==> re[0] != '*' {
      CompileGlyph(Once('.'), re);
      OnceMatches('.', Compile(re), text);
    }
    CompileGlyph(Star('.'), re);
    StarMatches('.', Compile(re), text);
    CompileGlyph(Star(c), re);
    StarMatches(c, Compile(re), text);
    assert ".*" + re == Glyph(Star('.')) + re;
    assert forall k: nat :: StarAt('.', Compile(re), text, k) <==> k <= |text| && MatchesPrefix(Compile(re), text[k..]);
    assert forall k: nat :: c != '.' && k <= |text| && Run(c, text, k) && MatchesPrefix(Compile(re), text[k..]) ==>
      StarAt(c, Compile(re), text, k);
  }

  /** The first k characters of text are all c. */
  predicate Run(c: char, text: string, k: nat)
    requires k <= |text|
  {
    forall j :: 0 <= j < k ==> text[j] == c
  }

  method Matchhere(re: string, text: string) returns (found: bool)
    ensures found <==> MatchesPrefix(Compile(re), text)
    decreases |re|, 0
  {
    if re == "" {
      EmptyMatches(false, text);
      return true;
    }
    if |re| > 1 && re[1] == '*' {
      assert Compile(re) == Prepend(Star(re[0]), Compile(re[2..]));
      StarMatches(re[0], Compile(re[2..]), text);
      found := Matchstar(re[0], re[2..], text);
      return;
    }
    if re == "$" {
      EmptyMatches(true, text);
      return text == "";
    }
    OnceMatches(re[0], Compile(re[1..]), text);
    if text != "" && (re[0] == '.' || re[0] == text[0]) {
      found := Matchhere(re[1..], text[1..]);
      return;
    }
    return false;
  }

  method Matchstar(c: char, re: string, text: string) returns (found: bool)
    ensures found <==> exists k: nat :: StarAt(c, Compile(re), text, k)
    decreases |re|, 1
  {
    var i := 0;
    while true
      invariant 0 <= i <= |text| && (forall j :: 0 <= j < i ==> Takes(c, text[j]))
      invariant forall k: nat :: k < i ==> !StarAt(c, Compile(re), text, k)
      decreases |text| - i
    {
      var here := Matchhere(re, text[i..]);
      if here {
        assert StarAt(c, Compile(re), text, i);
        return true;
      }
      if i == |text| || !(text[i] == c || c == '.') {
        return false;
      }
      i := i + 1;
    }
  }

  method Match(re: string, text: string) returns (found: bool)
    ensures found <==> Matches(re, text)
  {
    if re != "" && re[0] == '^' {
      found := Matchhere(re[1..], text);
      return;
    }
    var i := 0;
    while true
      invariant 0 <= i <= |text|
      invariant forall k :: 0 <= k < i ==> !MatchesPrefix(Compile(re), text[k..])
      decreases |text| - i
    {
      found := Matchhere(re, text[i..]);
      if found || i == |text| {
        return;
      }
      i := i + 1;
    }
  }
}
