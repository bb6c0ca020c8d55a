/**
 The pieces that source text is made of besides comments: literals, words and slashes, and how they pass the
 comment filter and the tokenizer (doc/dimple.d:45-211).
 */
module ImportPieces {
  import opened Options
  import opened Sequences
  import opened ImportLexer

  // ---------------------------------------------------------------- carriage returns

  function WithoutReturns(s: string): string {
    if s == "" then "" else (if s[0] == '\r' then "" else [s[0]]) + WithoutReturns(s[1..])
  }

  /** A carriage return counts as nothing, wherever it stands. */
  lemma {:induction false} ReturnsDoNotMatter(st: FilterState, s: string)
    ensures Filter(st, s) == Filter(st, WithoutReturns(s))
    decreases |s|
  {
    if s != "" {
      if s[0] == '\r' {
        ReturnsDoNotMatter(st, s[1..]);
        assert "" + WithoutReturns(s[1..]) == WithoutReturns(s[1..]);
      } else {
        ReturnsDoNotMatter(NextState(st, s[0]), s[1..]);
        FilterOfCons(st, s[0], WithoutReturns(s[1..]));
      }
    }
  }

  // ---------------------------------------------------------------- literals

  /** `quote`, `body`, `quote`. */
  datatype StringLiteral = StringLiteral(quote: char, body: string)

  predicate IsQuote(c: char) {
    c == '"' || c == '\'' || c == '`'
  }

  /** What may stand between two quotes: no quote but escaped ones, and between backquotes nothing is escaped. */
  predicate Closed(quote: char, body: string)
    decreases |body|
  {
    if body == "" then true
    else if body[0] == quote || body[0] == '\r' then false
    else if body[0] == '\\' && quote != '`' then |body| >= 2 && body[1] != '\r' && Closed(quote, body[2..])
    else Closed(quote, body[1..])
  }

  predicate ValidLiteral(l: StringLiteral) {
    IsQuote(l.quote) && Closed(l.quote, l.body)
  }

  function PrintLiteral(l: StringLiteral): string {
    [l.quote] + (l.body + [l.quote])
  }

  function Inside(quote: char): FilterState
    requires IsQuote(quote)
  {
    if quote == '"' then DQuote else if quote == '\'' then SQuote else AQuote
  }

  lemma InsidePlain(quote: char, c: char, rest: string)
    requires IsQuote(quote) && c != quote && c != '\r' && (c != '\\' || quote == '`')
    ensures Filter(Inside(quote), [c] + rest) == [c] + Filter(Inside(quote), rest)
  {
    FilterOfCons(Inside(quote), c, rest);
  }

  lemma InsideEscape(quote: char, c: char, rest: string)
    requires IsQuote(quote) && quote != '`' && c != '\r'
    ensures Filter(Inside(quote), ['\\'] + ([c] + rest)) == ['\\'] + ([c] + Filter(Inside(quote), rest))
  {
    FilterOfCons(Inside(quote), '\\', [c] + rest);
    FilterOfCons(NextState(Inside(quote), '\\'), c, rest);
  }

  lemma SplitOne(s: string, t: string)
    requires s != ""
    ensures s + t == [s[0]] + (s[1..] + t)
  {
  }

  lemma SplitTwo(s: string, t: string)
    requires |s| >= 2
    ensures s + t == [s[0]] + ([s[1]] + (s[2..] + t))
  {
  }

  /** Inside a literal everything passes. */
  lemma {:induction false} FilterOfClosed(quote: char, body: string, rest: string, tail: string)
    requires IsQuote(quote) && Closed(quote, body) && Filter(Inside(quote), rest) == tail
    ensures Filter(Inside(quote), body + rest) == body + tail
    decreases |body|
  {
    if body == "" {
      assert body + rest == rest && body + tail == tail;
    } else if body[0] == '\\' && quote != '`' {
      FilterOfClosed(quote, body[2..], rest, tail);
      InsideEscape(quote, body[1], body[2..] + rest);
      SplitTwo(body, rest);
      SplitTwo(body, tail);
    } else {
      FilterOfClosed(quote, body[1..], rest, tail);
      InsidePlain(quote, body[0], body[1..] + rest);
      SplitOne(body, rest);
      SplitOne(body, tail);
    }
  }

  /** A literal passes the filter whole, whatever comment marks it holds, and ends at its closing quote. */
  lemma FilterOfLiteral(l: StringLiteral, rest: string)
    requires ValidLiteral(l)
    ensures Filter(Echo, PrintLiteral(l) + rest) == PrintLiteral(l) + Filter(Echo, rest)
  {
    var later := Filter(Echo, rest);
    FilterOfCons(Inside(l.quote), l.quote, rest);
    FilterOfClosed(l.quote, l.body, [l.quote] + rest, [l.quote] + later);
    FilterOfCons(Echo, l.quote, l.body + ([l.quote] + rest));
    LiteralSplits(l, rest);
    LiteralSplits(l, later);
  }

  lemma LiteralSplits(l: StringLiteral, rest: string)
    ensures PrintLiteral(l) + rest == [l.quote] + (l.body + ([l.quote] + rest))
  {
    Associative([l.quote], l.body + [l.quote], rest);
    Associative(l.body, [l.quote], rest);
  }

  /** A literal that never ends passes too. */
  lemma FilterOfOpenLiteral(quote: char, body: string)
    requires IsQuote(quote) && Closed(quote, body)
    ensures Filter(Echo, [quote] + body) == [quote] + body
  {
    FilterOfClosed(quote, body, "", "");
    assert body + "" == body;
    FilterOfCons(Echo, quote, body);
  }

  /** The literal ends at `end`, which starts with the closing quote, or not at all. */
  lemma {:induction false} LiteralOfClosed(quote: char, body: string, end: string)
    requires IsQuote(quote) && Closed(quote, body) && (end == "" || end[0] == quote)
    ensures Literal(quote, quote != '`', body + end)
         == if end == "" then None else Some(Lexeme(body + [quote], end[1..]))
    decreases |body|
  {
    if body == "" {
      assert body + end == end && body + [quote] == [quote];
    } else if body[0] == '\\' && quote != '`' {
      LiteralOfClosed(quote, body[2..], end);
      Suffixes(body, end, 2, [quote]);
    } else {
      LiteralOfClosed(quote, body[1..], end);
      Suffixes(body, end, 1, [quote]);
    }
  }

  lemma Suffixes(body: string, end: string, k: nat, q: string)
    requires k <= |body|
    ensures (body + end)[..k] == body[..k] && (body + end)[k..] == body[k..] + end
    ensures body[..k] + (body[k..] + q) == body + q
  {
    assert body[..k] + body[k..] == body;
    Associative(body[..k], body[k..], q);
  }

  /** At the start of a token a literal is one token, up to its closing quote. */
  lemma TokensOfLiteral(l: StringLiteral, rest: string)
    requires ValidLiteral(l)
    ensures Tokens(PrintLiteral(l) + rest) == [PrintLiteral(l)] + Tokens(rest)
  {
    var s := PrintLiteral(l) + rest;
    LiteralSplits(l, rest);
    LiteralOfClosed(l.quote, l.body, [l.quote] + rest);
    assert ([l.quote] + rest)[1..] == rest;
    assert s[0] == l.quote && s[1..] == l.body + ([l.quote] + rest);
    assert FirstToken(s) == Some(Lexeme(PrintLiteral(l), rest));
  }

  /** One that never ends is no token. */
  lemma TokensOfOpenLiteral(quote: char, body: string)
    requires IsQuote(quote) && Closed(quote, body)
    ensures Tokens([quote] + body) == []
  {
    LiteralOfClosed(quote, body, "");
    assert ([quote] + body)[1..] == body && body + "" == body;
  }

  // ---------------------------------------------------------------- words

  /** A character that the comment filter passes on and forgets. */
  predicate Inert(c: char) {
    c != '/' && !IsQuote(c) && c != '\r'
  }

  predicate PlainChar(c: char) {
    Inert(c) && !EndsWord(c)
  }

  predicate AllPlain(n: string) {
    forall k | 0 <= k < |n| :: PlainChar(n[k])
  }

  predicate PlainName(n: string) {
    n != "" && AllPlain(n)
  }

  /** A slash that starts no comment passes with the character behind it, which opens no literal either. */
  lemma FilterOfSlash(c: char, rest: string)
    requires c != '/' && c != '*' && c != '\r'
    ensures Filter(Echo, ['/'] + ([c] + rest)) == ['/'] + ([c] + Filter(Echo, rest))
  {
    FilterOfCons(Slash, c, rest);
    FilterOfCons(Echo, '/', [c] + rest);
    assert "" + Filter(Slash, [c] + rest) == Filter(Slash, [c] + rest);
    assert ['/', c] + Filter(Echo, rest) == ['/'] + ([c] + Filter(Echo, rest));
  }

  /** What a word is made of: a plain character, a slash with the character behind it, or a literal without blanks. */
  datatype Atom = Plain(c: char) | Slashed(c: char) | Quoted(l: StringLiteral)

  predicate InWord(s: string) {
    forall k | 0 <= k < |s| :: !EndsWord(s[k])
  }

  predicate ValidAtom(a: Atom) {
    match a
    case Plain(c) => PlainChar(c)
    case Slashed(c) => c != '/' && c != '*' && c != '\r' && !EndsWord(c)
    case Quoted(l) => ValidLiteral(l) && InWord(l.body)
  }

  function PrintAtom(a: Atom): string {
    match a
    case Plain(c) => [c]
    case Slashed(c) => ['/', c]
    case Quoted(l) => PrintLiteral(l)
  }

  function PrintWord(w: seq<Atom>): string {
    if w == [] then "" else PrintAtom(w[0]) + PrintWord(w[1..])
  }

  /** A word does not begin with a literal, which would be a token of its own. */
  predicate ValidWord(w: seq<Atom>) {
    w != [] && !w[0].Quoted? && forall a | a in w :: ValidAtom(a)
  }

  lemma FilterOfAtom(a: Atom, rest: string)
    requires ValidAtom(a)
    ensures Filter(Echo, PrintAtom(a) + rest) == PrintAtom(a) + Filter(Echo, rest)
  {
    match a
    case Plain(c) => FilterOfCons(Echo, c, rest);
    case Slashed(c) =>
      FilterOfSlash(c, rest);
      assert ['/', c] + rest == ['/'] + ([c] + rest);
      assert ['/', c] + Filter(Echo, rest) == ['/'] + ([c] + Filter(Echo, rest));
    case Quoted(l) => FilterOfLiteral(l, rest);
  }

  lemma {:induction false} FilterOfWord(w: seq<Atom>, rest: string)
    requires forall a | a in w :: ValidAtom(a)
    ensures Filter(Echo, PrintWord(w) + rest) == PrintWord(w) + Filter(Echo, rest)
  {
    if w == [] {
      assert PrintWord(w) + rest == rest;
    } else {
      assert w[0] in w;
      Associative(PrintAtom(w[0]), PrintWord(w[1..]), rest);
      FilterOfAtom(w[0], PrintWord(w[1..]) + rest);
      FilterOfWord(w[1..], rest);
      Associative(PrintAtom(w[0]), PrintWord(w[1..]), Filter(Echo, rest));
    }
  }

  lemma {:induction false} WordHasNoEnd(w: seq<Atom>)
    requires forall a | a in w :: ValidAtom(a)
    ensures InWord(PrintWord(w))
  {
    if w != [] {
      assert w[0] in w;
      WordHasNoEnd(w[1..]);
    }
  }

  predicate AtBoundary(s: string) {
    s == "" || EndsWord(s[0])
  }

  lemma {:induction false} WordOfText(n: string, s: string)
    requires InWord(n) && AtBoundary(s)
    ensures Word(n + s) == Lexeme(n, s)
  {
    if n == "" {
      assert n + s == s;
    } else {
      assert (n + s)[1..] == n[1..] + s;
      WordOfText(n[1..], s);
    }
  }

  /** A text without blanks and marks that begins with no quote is one token, up to its boundary. */
  lemma TokensOfText(n: string, s: string)
    requires n != "" && InWord(n) && !IsQuote(n[0]) && AtBoundary(s)
    ensures Tokens(n + s) == [n] + Tokens(s)
  {
    assert (n + s)[1..] == n[1..] + s;
    WordOfText(n[1..], s);
    assert [n[0]] + n[1..] == n;
    assert FirstToken(n + s) == Some(Lexeme(n, s));
  }

  lemma TokensOfWord(w: seq<Atom>, s: string)
    requires ValidWord(w) && AtBoundary(s)
    ensures Tokens(PrintWord(w) + s) == [PrintWord(w)] + Tokens(s)
  {
    assert w[0] in w;
    WordHasNoEnd(w);
    TokensOfText(PrintWord(w), s);
  }
}
