/** The tokenizer of the source-to-HTML converter (doc/bin/dcode.d:262-492). */
module SourceTokens {
  import opened Options
  import opened Sequences
  import opened TextLines

  datatype TokenType =
    | Ident | Line | Nbr | EscStr | Char | Str | Wysiwyg | Endl | Space | Semicolon | Comma | Dot
    | Comment | NestedOpen | NestedClose
    | CurlyOpen | CurlyClose | RoundOpen | RoundClose | SquareOpen | SquareClose
    | Lor | Land | Other | Op | Ueof

  datatype Token = Token(ttype: TokenType, data: string, line: nat)

  /**
   A rule and its regular expression, taken as the function that gives the matched range in a text.
   The range need not start at 0: a `^` that is prefixed to `a|b` does not anchor `b`.
   */
  datatype Rule = Rule(ttype: TokenType, pmatch: string -> Option<(nat, nat)>)

  /** A match lies in the text it was found in. */
  ghost predicate Sound(rules: seq<Rule>) {
    forall j, s | 0 <= j < |rules| :: RangeIn(rules[j].pmatch(s), |s|)
  }

  predicate RangeIn(m: Option<(nat, nat)>, n: nat) {
    m.Some? ==> m.value.0 <= m.value.1 <= n
  }

  function MatchLength(rule: Rule, s: string): nat {
    var m := rule.pmatch(s);
    if m.Some? && m.value.0 <= m.value.1 then m.value.1 - m.value.0 else 0
  }

  datatype SearchResult = SearchResult(start: nat, end: nat, ttype: TokenType)

  /** Of the first `n` rules, rule `j` matches most of `s`, and is the first to do so. */
  ghost predicate IsLongest(rules: seq<Rule>, s: string, n: nat, j: nat) {
    && j < n <= |rules| && MatchLength(rules[j], s) > 0
    && (forall m | 0 <= m < n :: MatchLength(rules[m], s) <= MatchLength(rules[j], s))
    && (forall m | 0 <= m < j :: MatchLength(rules[m], s) < MatchLength(rules[j], s))
  }

  ghost predicate NothingMatches(rules: seq<Rule>, s: string) {
    forall m | 0 <= m < |rules| :: MatchLength(rules[m], s) == 0
  }

  /** The search from `i` settles on rule `j` at position `at`, the first where anything matches. */
  ghost predicate IsBestMatch(data: string, rules: seq<Rule>, r: SearchResult, i: nat, at: nat, j: nat) {
    && i <= at < |data|
    && (forall k | i <= k < at :: NothingMatches(rules, data[k..]))
    && IsLongest(rules, data[at..], |rules|, j)
    && at <= r.start <= r.end
    && rules[j].pmatch(data[at..]) == Some((r.start - at, r.end - at))
    && r.ttype == rules[j].ttype
  }

  /** The rule that wins among the first `n`, as the inner loop keeps it. */
  function Winner(rules: seq<Rule>, s: string, n: nat): (r: Option<nat>)
    requires n <= |rules|
    ensures r.None? ==> forall m | 0 <= m < n :: MatchLength(rules[m], s) == 0
    ensures r.Some? ==> r.value < n && IsLongest(rules, s, n, r.value)
  {
    if n == 0 then None
    else
      var w := Winner(rules, s, n - 1);
      var best := if w.Some? then MatchLength(rules[w.value], s) else 0;
      if MatchLength(rules[n - 1], s) > best then Some(n - 1) else w
  }

  /** The result of the search from position `i` on; an empty range at 0 when nothing matches. */
  function BestMatch(data: string, rules: seq<Rule>, i: nat): SearchResult
    requires i <= |data|
    decreases |data| - i
  {
    if i == |data| then SearchResult(0, 0, Other)
    else
      var w := Winner(rules, data[i..], |rules|);
      if w.None? then BestMatch(data, rules, i + 1)
      else
        var m := rules[w.value].pmatch(data[i..]).value;
        SearchResult(m.0 + i, m.1 + i, rules[w.value].ttype)
  }

  /** The match `longest` of the winning rule among the first `n`, `i` characters into the data. */
  ghost predicate HoldsWinner(rules: seq<Rule>, text: string, n: nat, i: nat, longest: nat, r: SearchResult)
    requires n <= |rules|
  {
    var w := Winner(rules, text, n);
    if w.None? then longest == 0
    else
      && longest == MatchLength(rules[w.value], text) > 0
      && r.start >= i && r.end >= i && rules[w.value].pmatch(text) == Some((r.start - i, r.end - i))
      && r.ttype == rules[w.value].ttype
  }

  /** What the inner loop has to do about rule `j`. */
  lemma WinnerNext(rules: seq<Rule>, text: string, j: nat, i: nat, longest: nat, r: SearchResult)
    requires Sound(rules) && j < |rules| && HoldsWinner(rules, text, j, i, longest, r)
    ensures RangeIn(rules[j].pmatch(text), |text|)
    ensures var m := rules[j].pmatch(text);
      if m.Some? && m.value.1 - m.value.0 > longest then
        HoldsWinner(rules, text, j + 1, i, m.value.1 - m.value.0,
                    SearchResult(m.value.0 + i, m.value.1 + i, rules[j].ttype))
      else HoldsWinner(rules, text, j + 1, i, longest, r)
  {
    assert RangeIn(rules[j].pmatch(text), |text|);
  }

  /** The body of the inner loop of `findBestMatch`. */
  method TryRule(rules: seq<Rule>, text: string, j: nat, i: nat, longest: nat, r: SearchResult)
    returns (longest': nat, r': SearchResult)
    requires Sound(rules) && j < |rules| && HoldsWinner(rules, text, j, i, longest, r)
    ensures HoldsWinner(rules, text, j + 1, i, longest', r')
  {
    longest', r' := longest, r;
    var m := rules[j].pmatch(text);
    WinnerNext(rules, text, j, i, longest, r);
    if m.Some? && m.value.1 - m.value.0 > longest {
      longest' := m.value.1 - m.value.0;
      r' := SearchResult(m.value.0 + i, m.value.1 + i, rules[j].ttype);
    }
  }

  /** The inner loop of `findBestMatch`: the longest match at position `i`. */
  method LongestMatchAt(data: string, rules: seq<Rule>, i: nat) returns (longest: nat, r: SearchResult)
    requires Sound(rules) && i < |data|
    ensures HoldsWinner(rules, data[i..], |rules|, i, longest, r)
  {
    var text := data[i..];
    longest, r := 0, SearchResult(0, 0, Other);
    var j := 0;
    while j < |rules|
      invariant 0 <= j <= |rules|
      invariant HoldsWinner(rules, text, j, i, longest, r)
    {
      longest, r := TryRule(rules, text, j, i, longest, r);
      j := j + 1;
    }
  }

  /** `findBestMatch`. */
  method FindBestMatch(data: string, rules: seq<Rule>) returns (r: SearchResult)
    requires Sound(rules)
    ensures r == BestMatch(data, rules, 0)
  {
    var i := 0;
    while i < |data|
      invariant 0 <= i <= |data|
      invariant BestMatch(data, rules, 0) == BestMatch(data, rules, i)
    {
      var longest, best := LongestMatchAt(data, rules, i);
      if longest != 0 {
        return best;
      }
      i := i + 1;
    }
    r := SearchResult(0, 0, Other);
  }

  /**
   Maximal munch: the search finds something iff some rule matches some text somewhere, and then the
   longest match at the first such position, by the first rule that gives it.
   */
  lemma {:induction false} BestMatchIsBest(data: string, rules: seq<Rule>, i: nat)
    requires Sound(rules) && i <= |data|
    ensures var r := BestMatch(data, rules, i);
      && r.start <= r.end <= |data|
      && (r.end == 0 <==> forall k | i <= k < |data| :: NothingMatches(rules, data[k..]))
      && (r.end != 0 ==> r.start < r.end && HasBestMatch(data, rules, r, i))
    decreases |data| - i
  {
    if i < |data| {
      var w := Winner(rules, data[i..], |rules|);
      if w.None? {
        BestMatchIsBest(data, rules, i + 1);
        BestMatchLater(data, rules, BestMatch(data, rules, i), i);
      } else {
        BestMatchHere(data, rules, i);
      }
    }
  }

  ghost predicate HasBestMatch(data: string, rules: seq<Rule>, r: SearchResult, i: nat) {
    exists at: nat, j: nat :: IsBestMatch(data, rules, r, i, at, j)
  }

  lemma BestMatchLater(data: string, rules: seq<Rule>, r: SearchResult, i: nat)
    requires i < |data| && NothingMatches(rules, data[i..])
    ensures HasBestMatch(data, rules, r, i + 1) ==> HasBestMatch(data, rules, r, i)
  {
    if HasBestMatch(data, rules, r, i + 1) {
      var at: nat, j: nat :| IsBestMatch(data, rules, r, i + 1, at, j);
      assert IsBestMatch(data, rules, r, i, at, j);
    }
  }

  lemma BestMatchHere(data: string, rules: seq<Rule>, i: nat)
    requires Sound(rules) && i < |data| && Winner(rules, data[i..], |rules|).Some?
    ensures var r := BestMatch(data, rules, i); r.start < r.end <= |data| && HasBestMatch(data, rules, r, i)
    ensures !NothingMatches(rules, data[i..])
  {
    var w := Winner(rules, data[i..], |rules|).value;
    assert RangeIn(rules[w].pmatch(data[i..]), |data[i..]|);
    assert MatchLength(rules[w], data[i..]) > 0;
    assert IsBestMatch(data, rules, BestMatch(data, rules, i), i, i, w);
  }

  // ---------------------------------------------------------------- token sequences

  /** The text that tokens stand for. */
  function Text(ts: seq<Token>): string {
    if ts == [] then "" else ts[0].data + Text(ts[1..])
  }

  lemma {:induction false} TextOfConcat(a: seq<Token>, b: seq<Token>)
    ensures Text(a + b) == Text(a) + Text(b)
  {
    if a == [] {
      assert a + b == b;
    } else {
      assert (a + b)[1..] == a[1..] + b;
      TextOfConcat(a[1..], b);
    }
  }

  /** Each token carries the line it starts on, the first one starting on `line`. */
  predicate LinesFrom(ts: seq<Token>, line: nat) {
    ts == [] || (ts[0].line == line && LinesFrom(ts[1..], line + Newlines(ts[0].data)))
  }

  /** The line of the token at `k`, counted from the text before it. */
  function LineAt(ts: seq<Token>, line: nat, k: nat): nat
    requires k <= |ts|
  {
    line + Newlines(Text(ts[..k]))
  }

  lemma LineAtNext(ts: seq<Token>, line: nat, k: nat)
    requires 0 < k <= |ts|
    ensures LineAt(ts, line, k) == LineAt(ts[1..], line + Newlines(ts[0].data), k - 1)
  {
    assert ts[..k][1..] == ts[1..][..k - 1];
    NewlinesOfConcat(ts[0].data, Text(ts[1..][..k - 1]));
  }

  /** That is, every token's line is the first one plus the line feeds in the text before the token. */
  lemma {:induction false} LinesFromCountsLineFeeds(ts: seq<Token>, line: nat)
    ensures LinesFrom(ts, line) <==> forall k | 0 <= k < |ts| :: ts[k].line == LineAt(ts, line, k)
  {
    if ts != [] {
      var next := line + Newlines(ts[0].data);
      LinesFromCountsLineFeeds(ts[1..], next);
      assert ts[..0] == [];
      forall k | 0 <= k < |ts| - 1
        ensures ts[1..][k] == ts[k + 1] && LineAt(ts[1..], next, k) == LineAt(ts, line, k + 1)
      {
        LineAtNext(ts, line, k + 1);
      }
    }
  }

  lemma LinesOfCons(t: Token, ts: seq<Token>, line: nat)
    requires t.line == line && LinesFrom(ts, line + Newlines(t.data))
    ensures LinesFrom([t] + ts, line)
    ensures Text([t] + ts) == t.data + Text(ts)
  {
    assert ([t] + ts)[1..] == ts;
  }

  // ---------------------------------------------------------------- tokenize

  /** The tokens of `data`, the first on `line`. */
  function Tokens(data: string, rules: seq<Rule>, line: nat): seq<Token>
    requires Sound(rules)
    decreases |data|
  {
    if data == "" then []
    else
      var s := BestMatch(data, rules, 0);
      BestMatchIsBest(data, rules, 0);
      if s.start == 0 && s.end == 0 then [Token(Other, data, line)]
      else
        Round(data, line, s)
        + Tokens(data[s.end..], rules, LineAfter(data, line, s))
  }

  function LineAfter(data: string, line: nat, s: SearchResult): nat
    requires s.start <= s.end <= |data|
  {
    line + Newlines(data[..s.start]) + Newlines(data[s.start..s.end])
  }

  /** Tokens are lossless, not empty, and each carries the line it starts on. */
  lemma {:induction false} TokensAreLossless(data: string, rules: seq<Rule>, line: nat)
    requires Sound(rules)
    ensures Text(Tokens(data, rules, line)) == data
    ensures LinesFrom(Tokens(data, rules, line), line)
    ensures forall t | t in Tokens(data, rules, line) :: t.data != ""
    decreases |data|
  {
    if data != "" {
      var s := BestMatch(data, rules, 0);
      BestMatchIsBest(data, rules, 0);
      if s.start == 0 && s.end == 0 {
        LinesOfCons(Token(Other, data, line), [], line);
        assert [Token(Other, data, line)] + [] == Tokens(data, rules, line);
      } else {
        TokensAreLossless(data[s.end..], rules, LineAfter(data, line, s));
        MatchIsLossless(data, line, s, Tokens(data[s.end..], rules, LineAfter(data, line, s)));
      }
    }
  }

  /** The tokens of one round of `tokenize`: what the search skipped and what it matched. */
  function Round(data: string, line: nat, s: SearchResult): seq<Token>
    requires s.start <= s.end <= |data|
  {
    (if s.start != 0 then [Token(Other, data[..s.start], line)] else [])
    + [Token(s.ttype, data[s.start..s.end], line + Newlines(data[..s.start]))]
  }

  /** `r` is the best match in `data`, by rule `j`. */
  ghost predicate Finds(data: string, rules: seq<Rule>, r: SearchResult, j: nat) {
    r.start < r.end <= |data| && j < |rules| && exists at: nat :: IsBestMatch(data, rules, r, 0, at, j)
  }

  /** A token of the type of rule `j` for the text that it matched. */
  predicate IsMatched(t: Token, data: string, rules: seq<Rule>, r: SearchResult, j: nat) {
    j < |rules| && r.start <= r.end <= |data| && t.ttype == rules[j].ttype && t.data == data[r.start..r.end]
  }

  /**
   The tokens cut `data` into the best match of what remains, again and again, each of the type of its rule; what
   is skipped before a match, or is left when nothing matches any more, is of type `Other`.
   */
  ghost predicate CutsUp(data: string, rules: seq<Rule>, ts: seq<Token>)
    decreases |ts|
  {
    if data == "" then ts == []
    else if forall k | 0 <= k < |data| :: NothingMatches(rules, data[k..]) then
      |ts| == 1 && ts[0].ttype == Other && ts[0].data == data
    else
      exists r: SearchResult, j: nat, n: nat ::
        Finds(data, rules, r, j) && IsRound(ts, n, data, rules, r, j) && CutsUp(data[r.end..], rules, ts[n..])
  }

  /** The first `n` tokens: what was skipped, if anything, and what rule `j` matched. */
  predicate IsRound(ts: seq<Token>, n: nat, data: string, rules: seq<Rule>, r: SearchResult, j: nat) {
    if r.start == 0 then n == 1 <= |ts| && IsMatched(ts[0], data, rules, r, j)
    else
      && n == 2 <= |ts| && r.start <= |data| && ts[0].ttype == Other && ts[0].data == data[..r.start]
      && IsMatched(ts[1], data, rules, r, j)
  }

  lemma {:induction false} TokensCutUp(data: string, rules: seq<Rule>, line: nat)
    requires Sound(rules)
    ensures CutsUp(data, rules, Tokens(data, rules, line))
    decreases |data|
  {
    if data != "" {
      var s := BestMatch(data, rules, 0);
      BestMatchIsBest(data, rules, 0);
      if s.end != 0 {
        var at: nat, j: nat :| IsBestMatch(data, rules, s, 0, at, j);
        var rest := Tokens(data[s.end..], rules, LineAfter(data, line, s));
        TokensCutUp(data[s.end..], rules, LineAfter(data, line, s));
        RoundCutsUp(data, rules, s, j, line, rest, Round(data, line, s) + rest);
      }
    }
  }

  lemma RoundCutsUp(data: string, rules: seq<Rule>, s: SearchResult, j: nat, line: nat, rest: seq<Token>,
          ts: seq<Token>)
    requires Finds(data, rules, s, j) && CutsUp(data[s.end..], rules, rest) && ts == Round(data, line, s) + rest
    ensures CutsUp(data, rules, ts)
  {
    var at: nat :| IsBestMatch(data, rules, s, 0, at, j);
    assert !NothingMatches(rules, data[at..]);
    var n := |Round(data, line, s)|;
    assert ts[n..] == rest;
    RoundIsRound(data, rules, s, j, line, rest, ts, at);
    assert IsRound(ts, n, data, rules, s, j);
  }

  lemma RoundIsRound(data: string, rules: seq<Rule>, s: SearchResult, j: nat, line: nat, rest: seq<Token>,
          ts: seq<Token>, at: nat)
    requires s.start < s.end <= |data| && IsBestMatch(data, rules, s, 0, at, j) && ts == Round(data, line, s) + rest
    ensures IsRound(ts, |Round(data, line, s)|, data, rules, s, j)
  {
  }

  /** Another token in front keeps the tokens right. */
  ghost predicate Lossless(ts: seq<Token>, data: string, line: nat) {
    Text(ts) == data && LinesFrom(ts, line) && forall t | t in ts :: t.data != ""
  }

  lemma LosslessCons(t: Token, ts: seq<Token>, rest: string, line: nat, next: nat)
    requires t.line == line && t.data != "" && next == line + Newlines(t.data) && Lossless(ts, rest, next)
    ensures Lossless([t] + ts, t.data + rest, line)
  {
    LinesOfCons(t, ts, line);
  }

  /** A skipped text, if any, and a matched one in front keep the tokens right. */
  lemma RoundIsLossless(skipped: string, matched: string, tail: string, ttype: TokenType, rest: seq<Token>,
          line: nat, after: nat, next: nat, round: seq<Token>, data: string)
    requires matched != "" && after == line + Newlines(skipped) && next == after + Newlines(matched)
    requires Lossless(rest, tail, next) && data == skipped + (matched + tail)
    requires round == (if skipped != "" then [Token(Other, skipped, line)] else []) + [Token(ttype, matched, after)]
    ensures Lossless(round + rest, data, line)
  {
    var t := Token(ttype, matched, after);
    LosslessCons(t, rest, tail, after, next);
    if skipped == "" {
      assert round == [t];
      assert data == matched + tail;
    } else {
      var u := Token(Other, skipped, line);
      LosslessCons(u, [t] + rest, matched + tail, line, after);
      Associative([u], [t], rest);
    }
  }

  lemma MatchIsLossless(data: string, line: nat, s: SearchResult, rest: seq<Token>)
    requires s.start < s.end <= |data| && Lossless(rest, data[s.end..], LineAfter(data, line, s))
    ensures Lossless(Round(data, line, s) + rest, data, line)
  {
    var skipped, matched, tail := data[..s.start], data[s.start..s.end], data[s.end..];
    RoundIsLossless(skipped, matched, tail, s.ttype, rest, line, line + Newlines(skipped), LineAfter(data, line, s),
                    Round(data, line, s), data);
  }

  /** `tokenize`. */
  method Tokenize(data: string, rules: seq<Rule>) returns (result: seq<Token>)
    requires Sound(rules)
    ensures result == Tokens(data, rules, 1)
    ensures CutsUp(data, rules, result)
  {
    TokensCutUp(data, rules, 1);
    result := [];
    var line := 1;
    var rest := data;
    while |rest| > 0
      invariant result + Tokens(rest, rules, line) == Tokens(data, rules, 1)
      decreases |rest|
    {
      var s := FindBestMatch(rest, rules);
      if s.start == 0 && s.end == 0 {
        result := result + [Token(Other, rest, line)];
        break;
      }
      BestMatchIsBest(rest, rules, 0);
      ghost var before, from, at := result, rest, line;
      result, line := EmitRound(result, rest, line, s);
      rest := rest[s.end..];
      ghost var round, tail := Round(from, at, s), Tokens(rest, rules, line);
      Associative(before, round, tail);
    }
  }

  /** The loop body of `tokenize` after a successful search. */
  method EmitRound(tokens: seq<Token>, data: string, start: nat, s: SearchResult)
    returns (result: seq<Token>, line: nat)
    requires s.start <= s.end <= |data|
    ensures result == tokens + Round(data, start, s)
    ensures line == LineAfter(data, start, s)
  {
    result, line := tokens, start;
    assert data[..0] == "";
    if s.start != 0 {
      var tdata := data[..s.start];
      result := result + [Token(Other, tdata, line)];
      var skipped := CountNewlines(tdata);
      line := line + skipped;
    }
    var tdata := data[s.start..s.end];
    result := result + [Token(s.ttype, tdata, line)];
    var matched := CountNewlines(tdata);
    line := line + matched;
  }

  method CountNewlines(s: string) returns (n: nat)
    ensures n == Newlines(s)
  {
    n := 0;
    var k := 0;
    while k < |s|
      invariant 0 <= k <= |s|
      invariant n + Newlines(s[k..]) == Newlines(s)
    {
      if s[k] == '\n' {
        n := n + 1;
      }
      k := k + 1;
    }
  }
}
