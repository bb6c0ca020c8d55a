/** Merging nested comments into single tokens, in place (doc/bin/dcode.d:495-558). */
module NestedComments {
  import opened Options
  import opened Sequences
  import opened SourceTokens
  import opened TextLines

  predicate Opens(t: Token) { t.ttype == NestedOpen }
  predicate Closes(t: Token) { t.ttype == NestedClose }

  /** Scanning from `j` at the given depth: where the depth is closed. */
  function MatchEnd(ts: seq<Token>, j: nat, depth: nat): (r: Option<nat>)
    requires j <= |ts| && depth > 0
    ensures r.Some? ==> j <= r.value < |ts| && Closes(ts[r.value])
    decreases |ts| - j
  {
    if j == |ts| then None
    else if Opens(ts[j]) then MatchEnd(ts, j + 1, depth + 1)
    else if Closes(ts[j]) then if depth == 1 then Some(j) else MatchEnd(ts, j + 1, depth - 1)
    else MatchEnd(ts, j + 1, depth)
  }

  /** The merged comment of tokens `i` to `j`: the opener's line, everybody's text. */
  function Merged(ts: seq<Token>, i: nat, j: nat): Token
    requires i <= j < |ts|
  {
    Token(Comment, Text(ts[i..j + 1]), ts[i].line)
  }

  /** The tokens from `i` on with every nested comment merged; `None` when some opener is not closed. */
  function Flatten(ts: seq<Token>, i: nat): Option<seq<Token>>
    requires i <= |ts|
    decreases |ts| - i
  {
    if i == |ts| then Some([])
    else if Opens(ts[i]) then
      var e := MatchEnd(ts, i + 1, 1);
      if e.None? then None else Prepend([Merged(ts, i, e.value)], Flatten(ts, e.value + 1))
    else Prepend([ts[i]], Flatten(ts, i + 1))
  }

  function Prepend(a: seq<Token>, r: Option<seq<Token>>): Option<seq<Token>> {
    if r.None? then None else Some(a + r.value)
  }

  lemma PrependNothing(r: Option<seq<Token>>)
    ensures Prepend([], r) == r
  {
    if r.Some? {
      assert [] + r.value == r.value;
    }
  }

  lemma PrependTwice(a: seq<Token>, b: seq<Token>, r: Option<seq<Token>>)
    ensures Prepend(a, Prepend(b, r)) == Prepend(a + b, r)
  {
    if r.Some? {
      assert a + (b + r.value) == a + b + r.value;
    }
  }

  // ---------------------------------------------------------------- when it succeeds

  /** Openers minus closers among tokens `i` to `j - 1`. */
  function Balance(ts: seq<Token>, i: nat, j: nat): int
    requires i <= j <= |ts|
    decreases j - i
  {
    if i == j then 0
    else Balance(ts, i, j - 1) + (if Opens(ts[j - 1]) then 1 else if Closes(ts[j - 1]) then -1 else 0)
  }

  /** Opener `i` is closed by token `j`: the first place where as many closers as openers have passed. */
  ghost predicate IsMatch(ts: seq<Token>, i: nat, j: nat) {
    && i < j < |ts| && Opens(ts[i]) && Closes(ts[j])
    && Balance(ts, i, j + 1) == 0
    && forall m | i < m <= j :: Balance(ts, i, m) > 0
  }

  ghost predicate HasMatch(ts: seq<Token>, i: nat) {
    exists j: nat :: IsMatch(ts, i, j)
  }

  lemma {:induction false} BalanceSplits(ts: seq<Token>, i: nat, j: nat, k: nat)
    requires i <= j <= k <= |ts|
    ensures Balance(ts, i, k) == Balance(ts, i, j) + Balance(ts, j, k)
    decreases k
  {
    if j < k {
      BalanceSplits(ts, i, j, k - 1);
    }
  }

  /** The scan stops at the first token where the depth is used up, and only fails when there is none. */
  lemma {:induction false} MatchEndIsFirstZero(ts: seq<Token>, j: nat, depth: nat)
    requires j <= |ts| && depth > 0
    ensures var e := MatchEnd(ts, j, depth);
      && (e.Some? ==> depth + Balance(ts, j, e.value + 1) == 0)
      && forall m | j <= m <= (if e.Some? then e.value else |ts|) :: depth + Balance(ts, j, m) > 0
    decreases |ts| - j
  {
    if j < |ts| {
      var d := depth + Balance(ts, j, j + 1);
      var e := MatchEnd(ts, j, depth);
      assert Balance(ts, j, j + 1) == if Opens(ts[j]) then 1 else if Closes(ts[j]) then -1 else 0;
      if d > 0 {
        MatchEndIsFirstZero(ts, j + 1, d);
        forall m | j < m <= |ts| ensures Balance(ts, j, m) == Balance(ts, j, j + 1) + Balance(ts, j + 1, m) {
          BalanceSplits(ts, j, j + 1, m);
        }
      }
    }
  }

  lemma MatchEndIsMatch(ts: seq<Token>, i: nat)
    requires i < |ts| && Opens(ts[i])
    ensures MatchEnd(ts, i + 1, 1).Some? <==> HasMatch(ts, i)
    ensures MatchEnd(ts, i + 1, 1).Some? ==> IsMatch(ts, i, MatchEnd(ts, i + 1, 1).value)
  {
    var e := MatchEnd(ts, i + 1, 1);
    MatchEndIsFirstZero(ts, i + 1, 1);
    forall m | i + 1 <= m <= |ts| ensures Balance(ts, i, m) == 1 + Balance(ts, i + 1, m) {
      BalanceSplits(ts, i, i + 1, m);
      assert Balance(ts, i, i + 1) == 1;
    }
    if e.Some? {
      assert IsMatch(ts, i, e.value);
    }
  }

  /** An opener inside a matched span is matched, inside it. */
  lemma InnerOpenerHasMatch(ts: seq<Token>, i: nat, j: nat, k: nat)
    requires IsMatch(ts, i, j) && i < k < j && Opens(ts[k])
    ensures HasMatch(ts, k)
  {
    MatchEndIsFirstZero(ts, k + 1, 1);
    MatchEndIsMatch(ts, k);
    BalanceSplits(ts, i, k, j + 1);
    BalanceSplits(ts, k, k + 1, j + 1);
    assert Balance(ts, k, k + 1) == 1;
    assert 1 + Balance(ts, k + 1, j + 1) < 0;
  }

  ghost predicate AllMatched(ts: seq<Token>, i: nat) {
    forall k | i <= k < |ts| && Opens(ts[k]) :: HasMatch(ts, k)
  }

  /** Flattening succeeds exactly when every opener has its closer. */
  lemma {:induction false} FlattenSucceedsIffAllMatched(ts: seq<Token>, i: nat)
    requires i <= |ts|
    ensures Flatten(ts, i).Some? <==> AllMatched(ts, i)
    decreases |ts| - i
  {
    if i < |ts| {
      if Opens(ts[i]) {
        MatchEndIsMatch(ts, i);
        var e := MatchEnd(ts, i + 1, 1);
        if e.Some? {
          FlattenSucceedsIffAllMatched(ts, e.value + 1);
          forall k | i <= k <= e.value && Opens(ts[k]) ensures HasMatch(ts, k) {
            if i < k < e.value {
              InnerOpenerHasMatch(ts, i, e.value, k);
            }
          }
        }
      } else {
        FlattenSucceedsIffAllMatched(ts, i + 1);
      }
    }
  }

  // ---------------------------------------------------------------- what it keeps

  /** Same text, right line numbers from `line` on, no opener. */
  ghost predicate Flat(r: seq<Token>, text: string, line: nat) {
    Text(r) == text && LinesFrom(r, line) && forall t | t in r :: !Opens(t)
  }

  lemma FlatCons(t: Token, r: seq<Token>, text: string, line: nat, next: nat)
    requires !Opens(t) && t.line == line && next == line + Newlines(t.data) && Flat(r, text, next)
    ensures Flat([t] + r, t.data + text, line)
  {
    LinesOfCons(t, r, line);
  }

  /** Flattening loses no text, keeps every line number right and leaves no opener. */
  lemma {:induction false} FlattenIsLossless(ts: seq<Token>, i: nat, line: nat)
    requires i <= |ts| && Flatten(ts, i).Some? && LinesFrom(ts[i..], line)
    ensures Flat(Flatten(ts, i).value, Text(ts[i..]), line)
    decreases |ts| - i
  {
    if i < |ts| {
      var e, t, next := NextPieceInPlace(ts, i, line);
      FlattenIsLossless(ts, e + 1, next);
      FlatStep(ts, i, e, t, line, next);
    } else {
      FlatNothing(ts, line);
    }
  }

  lemma FlatNothing(ts: seq<Token>, line: nat)
    ensures Flat(Flatten(ts, |ts|).value, Text(ts[|ts|..]), line)
  {
  }

  /** The same with the text and the lines behind it. */
  lemma NextPieceInPlace(ts: seq<Token>, i: nat, line: nat) returns (e: nat, t: Token, next: nat)
    requires i < |ts| && Flatten(ts, i).Some? && LinesFrom(ts[i..], line)
    ensures i <= e < |ts| && Flatten(ts, e + 1).Some? && !Opens(t) && t.line == line
    ensures Flatten(ts, i).value == [t] + Flatten(ts, e + 1).value
    ensures next == line + Newlines(t.data) && LinesFrom(ts[e + 1..], next)
    ensures Text(ts[i..]) == t.data + Text(ts[e + 1..])
  {
    e, t := NextPiece(ts, i);
    next := line + Newlines(t.data);
    SpanKeepsLines(ts, i, e, line, t.data, next);
  }

  lemma FlatStep(ts: seq<Token>, i: nat, e: nat, t: Token, line: nat, next: nat)
    requires i <= e < |ts| && Flatten(ts, i).Some? && Flatten(ts, e + 1).Some?
    requires Flatten(ts, i).value == [t] + Flatten(ts, e + 1).value && Text(ts[i..]) == t.data + Text(ts[e + 1..])
    requires !Opens(t) && t.line == line && next == line + Newlines(t.data)
    requires Flat(Flatten(ts, e + 1).value, Text(ts[e + 1..]), next)
    ensures Flat(Flatten(ts, i).value, Text(ts[i..]), line)
  {
    FlatCons(t, Flatten(ts, e + 1).value, Text(ts[e + 1..]), line, next);
  }

  /** The first token of the result stands for tokens `i` to `e`. */
  lemma NextPiece(ts: seq<Token>, i: nat) returns (e: nat, t: Token)
    requires i < |ts| && Flatten(ts, i).Some?
    ensures i <= e < |ts| && Flatten(ts, e + 1).Some? && !Opens(t) && t.line == ts[i].line
    ensures Flatten(ts, i).value == [t] + Flatten(ts, e + 1).value
    ensures if Opens(ts[i]) then MatchEnd(ts, i + 1, 1) == Some(e) && t == Merged(ts, i, e) else e == i && t == ts[i]
    ensures t.data == if i == e then ts[i].data else Text(ts[i..e + 1])
  {
    e := if Opens(ts[i]) then MatchEnd(ts, i + 1, 1).value else i;
    t := if Opens(ts[i]) then Merged(ts, i, e) else ts[i];
    FlattenUnfolds(ts, i, e, t);
  }

  lemma FlattenUnfolds(ts: seq<Token>, i: nat, e: nat, t: Token)
    requires i <= e < |ts|
    requires if Opens(ts[i]) then MatchEnd(ts, i + 1, 1) == Some(e) && t == Merged(ts, i, e) else e == i && t == ts[i]
    ensures Flatten(ts, i) == Prepend([t], Flatten(ts, e + 1))
  {
  }

  lemma TextOfOne(t: Token)
    ensures Text([t]) == t.data
  {
    assert [t][1..] == [] && t.data + "" == t.data;
  }

  /** The text and the lines after a span of tokens. */
  lemma SpanKeepsLines(ts: seq<Token>, i: nat, e: nat, line: nat, text: string, next: nat)
    requires i <= e < |ts| && LinesFrom(ts[i..], line)
    requires text == if i == e then ts[i].data else Text(ts[i..e + 1])
    requires next == line + Newlines(text)
    ensures ts[i].line == line
    ensures LinesFrom(ts[e + 1..], next)
    ensures Text(ts[i..]) == text + Text(ts[e + 1..])
  {
    var span, rest := ts[i..e + 1], ts[e + 1..];
    assert ts[i..] == span + rest;
    if i == e {
      TextOfOne(ts[i]);
      assert span == [ts[i]];
    }
    TextOfConcat(span, rest);
    LinesOfSuffix(span, rest, line, next);
  }

  lemma {:induction false} LinesOfSuffix(span: seq<Token>, rest: seq<Token>, line: nat, next: nat)
    requires LinesFrom(span + rest, line) && next == line + Newlines(Text(span))
    ensures LinesFrom(rest, next)
  {
    if span == [] {
      assert span + rest == rest;
    } else {
      assert (span + rest)[1..] == span[1..] + rest;
      NewlinesOfConcat(span[0].data, Text(span[1..]));
      LinesOfSuffix(span[1..], rest, line + Newlines(span[0].data), next);
    }
  }

  // ---------------------------------------------------------------- the grammar of nested comments

  /** A nested comment is an opener, any mix of plain tokens and nested comments, and a closer. */
  datatype Piece = Plain(t: Token) | Nested(open: Token, body: seq<Piece>, close: Token)

  ghost predicate Grammatical(p: Piece) {
    match p
    case Plain(t) => !Opens(t) && !Closes(t)
    case Nested(open, body, close) => Opens(open) && Closes(close) && forall q | q in body :: Grammatical(q)
  }

  function Yield(p: Piece): seq<Token>
    decreases p, 0
  {
    match p
    case Plain(t) => [t]
    case Nested(open, body, close) => [open] + YieldAll(body) + [close]
  }

  function YieldAll(ps: seq<Piece>): seq<Token>
    decreases ps, 1
  {
    if ps == [] then [] else Yield(ps[0]) + YieldAll(ps[1..])
  }

  ghost predicate AllGrammatical(ps: seq<Piece>) {
    forall q | q in ps :: Grammatical(q)
  }

  /** Scanning past grammatical pieces, which end at `e`, leaves the depth as it was. */
  lemma {:induction false} ScanSkipsPieces(ts: seq<Token>, i: nat, ps: seq<Piece>, depth: nat, e: nat)
    requires AllGrammatical(ps) && depth > 0
    requires e == i + |YieldAll(ps)| && e <= |ts| && ts[i..e] == YieldAll(ps)
    ensures MatchEnd(ts, i, depth) == MatchEnd(ts, e, depth)
    decreases ps, 1
  {
    if ps != [] {
      var a, b := Yield(ps[0]), YieldAll(ps[1..]);
      var mid := i + |a|;
      SlicesOfConcat(ts, i, mid, e, a, b);
      ScanSkipsPiece(ts, i, ps[0], depth, mid);
      ScanSkipsPieces(ts, mid, ps[1..], depth, e);
    }
  }

  /** A bracketed sequence found in place. */
  lemma Bracketed<T>(ts: seq<T>, i: nat, e: nat, open: T, body: seq<T>, close: T)
    requires e == i + 1 + |body| && e < |ts| && ts[i..e + 1] == [open] + body + [close]
    ensures ts[i] == open && ts[e] == close && ts[i + 1..e] == body
  {
    var all := [open] + body + [close];
    assert ts[i] == all[0] && ts[e] == all[1 + |body|];
    SliceOfSlice(ts, i, |all|, all, 1, 1 + |body|);
    assert all[1..1 + |body|] == body;
  }

  lemma {:induction false} ScanSkipsPiece(ts: seq<Token>, i: nat, p: Piece, depth: nat, e: nat)
    requires Grammatical(p) && depth > 0
    requires e == i + |Yield(p)| && e <= |ts| && ts[i..e] == Yield(p)
    ensures MatchEnd(ts, i, depth) == MatchEnd(ts, e, depth)
    decreases p, 0
  {
    if p.Nested? {
      var close := e - 1;
      Bracketed(ts, i, close, p.open, YieldAll(p.body), p.close);
      ScanSkipsPieces(ts, i + 1, p.body, depth + 1, close);
    } else {
      assert ts[i] == Yield(p)[0];
    }
  }

  /** What a deeper scan skips first is where the shallower scan would have stopped. */
  lemma {:induction false} DeeperScan(ts: seq<Token>, j: nat, depth: nat)
    requires j <= |ts| && depth > 0 && MatchEnd(ts, j, depth + 1).Some?
    ensures var k := MatchEnd(ts, j, depth);
      k.Some? && k.value < |ts| && MatchEnd(ts, j, depth + 1) == MatchEnd(ts, k.value + 1, 1)
    decreases |ts| - j
  {
    if j < |ts| {
      if Opens(ts[j]) {
        DeeperScan(ts, j + 1, depth + 1);
      } else if Closes(ts[j]) {
        if depth > 1 {
          DeeperScan(ts, j + 1, depth - 1);
        }
      } else {
        DeeperScan(ts, j + 1, depth);
      }
    }
  }

  /** The pieces between `i` and the end of its scan. */
  function ParseBody(ts: seq<Token>, i: nat): (ps: seq<Piece>)
    requires i <= |ts| && MatchEnd(ts, i, 1).Some?
    decreases |ts| - i
  {
    if Closes(ts[i]) then []
    else if Opens(ts[i]) then
      DeeperScan(ts, i + 1, 1);
      var k := MatchEnd(ts, i + 1, 1).value;
      [Nested(ts[i], ParseBody(ts, i + 1), ts[k])] + ParseBody(ts, k + 1)
    else
      [Plain(ts[i])] + ParseBody(ts, i + 1)
  }

  lemma YieldOfCons(p: Piece, ps: seq<Piece>)
    ensures YieldAll([p] + ps) == Yield(p) + YieldAll(ps)
  {
  }

  lemma {:induction false} ParseBodyYields(ts: seq<Token>, i: nat)
    requires i <= |ts| && MatchEnd(ts, i, 1).Some?
    ensures YieldAll(ParseBody(ts, i)) == ts[i..MatchEnd(ts, i, 1).value]
    decreases |ts| - i
  {
    var e := MatchEnd(ts, i, 1).value;
    if Opens(ts[i]) {
      var k := ParseNested(ts, i, e);
      ParseBodyYields(ts, i + 1);
      ParseBodyYields(ts, k + 1);
      NestedYields(ts, i, k, e);
    } else if !Closes(ts[i]) {
      ParseBodyYields(ts, i + 1);
      PlainYields(ts, i, e);
    }
  }

  /** A body that begins with a nested comment, up to `k`. */
  lemma ParseNested(ts: seq<Token>, i: nat, e: nat) returns (k: nat)
    requires i < |ts| && Opens(ts[i]) && MatchEnd(ts, i, 1) == Some(e)
    ensures i < k < e < |ts| && MatchEnd(ts, i + 1, 1) == Some(k) && MatchEnd(ts, k + 1, 1) == Some(e)
    ensures ParseBody(ts, i) == [Nested(ts[i], ParseBody(ts, i + 1), ts[k])] + ParseBody(ts, k + 1)
  {
    DeeperScan(ts, i + 1, 1);
    k := MatchEnd(ts, i + 1, 1).value;
  }

  lemma PlainYields(ts: seq<Token>, i: nat, e: nat)
    requires i < e <= |ts| && MatchEnd(ts, i + 1, 1) == Some(e) && YieldAll(ParseBody(ts, i + 1)) == ts[i + 1..e]
    ensures YieldAll([Plain(ts[i])] + ParseBody(ts, i + 1)) == ts[i..e]
  {
    YieldOfCons(Plain(ts[i]), ParseBody(ts, i + 1));
    JoinSlices(ts, i, i + 1, e);
  }

  lemma NestedYields(ts: seq<Token>, i: nat, k: nat, e: nat)
    requires i < k < e <= |ts| && MatchEnd(ts, i + 1, 1) == Some(k) && MatchEnd(ts, k + 1, 1) == Some(e)
    requires YieldAll(ParseBody(ts, i + 1)) == ts[i + 1..k] && YieldAll(ParseBody(ts, k + 1)) == ts[k + 1..e]
    ensures YieldAll([Nested(ts[i], ParseBody(ts, i + 1), ts[k])] + ParseBody(ts, k + 1)) == ts[i..e]
  {
    YieldOfCons(Nested(ts[i], ParseBody(ts, i + 1), ts[k]), ParseBody(ts, k + 1));
    SpanOfNested(ts, i, k);
    JoinSlices(ts, i, k + 1, e);
  }

  lemma {:induction false} ParseBodyIsGrammatical(ts: seq<Token>, i: nat)
    requires i <= |ts| && MatchEnd(ts, i, 1).Some?
    ensures AllGrammatical(ParseBody(ts, i))
    decreases |ts| - i
  {
    if Opens(ts[i]) {
      var k := ParseNested(ts, i, MatchEnd(ts, i, 1).value);
      ParseBodyIsGrammatical(ts, i + 1);
      ParseBodyIsGrammatical(ts, k + 1);
    } else if !Closes(ts[i]) {
      ParseBodyIsGrammatical(ts, i + 1);
    }
  }

  lemma SpanOfNested<T>(ts: seq<T>, i: nat, k: nat)
    requires i < k < |ts|
    ensures [ts[i]] + ts[i + 1..k] + [ts[k]] == ts[i..k + 1]
  {
  }

  ghost predicate IsNestedComment(ts: seq<Token>) {
    exists p: Piece :: p.Nested? && Grammatical(p) && Yield(p) == ts
  }

  /** The merged span is exactly a nested comment of the grammar, and the only one that starts there. */
  lemma MergedSpanIsNestedComment(ts: seq<Token>, i: nat, j: nat)
    requires i < j < |ts| && Opens(ts[i])
    ensures MatchEnd(ts, i + 1, 1) == Some(j) <==> IsNestedComment(ts[i..j + 1])
  {
    if MatchEnd(ts, i + 1, 1) == Some(j) {
      ParseBodyYields(ts, i + 1);
      ParseBodyIsGrammatical(ts, i + 1);
      SpanOfNested(ts, i, j);
      var p := Nested(ts[i], ParseBody(ts, i + 1), ts[j]);
      assert p.Nested? && Grammatical(p) && Yield(p) == ts[i..j + 1];
    }
    if IsNestedComment(ts[i..j + 1]) {
      var p: Piece :| p.Nested? && Grammatical(p) && Yield(p) == ts[i..j + 1];
      NestedIsScanned(ts, i, j, p);
    }
  }

  lemma NestedIsScanned(ts: seq<Token>, i: nat, j: nat, p: Piece)
    requires i < j < |ts| && p.Nested? && Grammatical(p) && Yield(p) == ts[i..j + 1]
    ensures MatchEnd(ts, i + 1, 1) == Some(j)
  {
    assert |YieldAll(p.body)| + 2 == |Yield(p)|;
    Bracketed(ts, i, j, p.open, YieldAll(p.body), p.close);
    ScanSkipsPieces(ts, i + 1, p.body, 1, j);
  }

  /** Tokens `a` to `b - 1` become `t`: a nested comment of the grammar with its text, or one token as it was. */
  ghost predicate BecomesToken(ts: seq<Token>, a: nat, b: nat, t: Token) {
    && a < b <= |ts|
    && if Opens(ts[a]) then IsNestedComment(ts[a..b]) && t == Token(Comment, Text(ts[a..b]), ts[a].line)
       else b == a + 1 && t == ts[a]
  }

  /** The tokens from `i` on, cut at the given places, become `r`. */
  ghost predicate IsCutting(ts: seq<Token>, i: nat, r: seq<Token>, cuts: seq<nat>) {
    && |cuts| == |r| + 1 && cuts[0] == i && cuts[|r|] == |ts|
    && forall k, m | 0 <= k < m < |cuts| && m == k + 1 :: BecomesToken(ts, cuts[k], cuts[m], r[k])
  }

  lemma CutOnce(ts: seq<Token>, i: nat, e: nat, t: Token, r: seq<Token>, cuts: seq<nat>)
    requires BecomesToken(ts, i, e, t) && IsCutting(ts, e, r, cuts)
    ensures IsCutting(ts, i, [t] + r, [i] + cuts)
  {
    var all := [i] + cuts;
    forall k, m | 0 <= k < m < |all| && m == k + 1 ensures BecomesToken(ts, all[k], all[m], ([t] + r)[k]) {
      if k > 0 {
        assert all[k] == cuts[k - 1] && all[m] == cuts[m - 1];
      }
    }
  }

  /** The flattened tokens are, piece by piece and in order, the plain tokens and the nested comments of the input. */
  lemma {:induction false} FlattenedPieces(ts: seq<Token>, i: nat) returns (cuts: seq<nat>)
    requires i <= |ts| && Flatten(ts, i).Some?
    ensures IsCutting(ts, i, Flatten(ts, i).value, cuts)
    decreases |ts| - i
  {
    if i == |ts| {
      cuts := [i];
    } else {
      var next, t := FirstPiece(ts, i);
      var rest := FlattenedPieces(ts, next);
      CutOnce(ts, i, next, t, Flatten(ts, next).value, rest);
      cuts := [i] + rest;
    }
  }

  lemma FirstPiece(ts: seq<Token>, i: nat) returns (next: nat, t: Token)
    requires i < |ts| && Flatten(ts, i).Some?
    ensures i < next <= |ts| && Flatten(ts, next).Some? && Flatten(ts, i).value == [t] + Flatten(ts, next).value
    ensures BecomesToken(ts, i, next, t)
  {
    var e: nat;
    e, t := NextPiece(ts, i);
    next := e + 1;
    if Opens(ts[i]) {
      MergedSpanIsNestedComment(ts, i, e);
    }
  }

  // ---------------------------------------------------------------- in place

  /**
   `flattenComments`.  The array is compacted as comments are merged; `count` is the length it is cut to.
   `ok` is false where the source raises its end-of-file error.
   */
  method FlattenComments(tokens: array<Token>) returns (ok: bool, count: nat)
    modifies tokens
    ensures ok <==> Flatten(old(tokens[..]), 0).Some?
    ensures ok ==> count <= tokens.Length && tokens[..count] == Flatten(old(tokens[..]), 0).value
  {
    ghost var ts := tokens[..];
    ghost var p: nat := 0;   // tokens[i..count] are still ts[p..]
    count := tokens.Length;
    ReachedStart(ts);
    var i := 0;
    while i < count
      invariant Reached(ts, p, tokens[..], i, count)
      decreases count - i
    {
      ok, count, p := FlattenAt(tokens, i, count, ts, p);
      if !ok {
        return;
      }
      i := i + 1;
    }
    ReachedEnd(ts, p, tokens[..], count);
    ok := true;
  }

  /** The body of the loop, for token `i`. */
  method FlattenAt(tokens: array<Token>, i: nat, count: nat, ghost ts: seq<Token>, ghost p: nat)
    returns (ok: bool, newCount: nat, ghost q: nat)
    requires Reached(ts, p, tokens[..], i, count) && i < count
    modifies tokens
    ensures ok ==> Reached(ts, q, tokens[..], i + 1, newCount) && newCount <= count
    ensures !ok ==> Flatten(ts, 0).None?
  {
    ok, newCount, q := true, count, p + 1;
    ReachedHead(ts, p, tokens[..], i, count);
    if Opens(tokens[i]) {
      var end := FindClose(tokens, i, count, ts, p);
      if end.None? {
        return false, count, p;
      }
      newCount, q := MergeSpan(tokens, i, end.value - i, count, ts, p);
    } else {
      ReachedNext(ts, p, 0, p + 1, ts[p], tokens[..], i, count, tokens[..], count);
    }
  }

  /** The tokens before `p` have become `s[..i]`, and `s[i..count]` are the tokens still to come. */
  ghost predicate Reached(ts: seq<Token>, p: nat, s: seq<Token>, i: nat, count: nat) {
    && i <= count <= |s| && p <= |ts|
    && s[i..count] == ts[p..]
    && Flatten(ts, 0) == Prepend(s[..i], Flatten(ts, p))
  }

  lemma ReachedStart(ts: seq<Token>)
    ensures Reached(ts, 0, ts, 0, |ts|)
  {
    PrependNothing(Flatten(ts, 0));
    assert ts[..0] == [] && ts[0..|ts|] == ts[0..];
  }

  lemma ReachedHead(ts: seq<Token>, p: nat, s: seq<Token>, i: nat, count: nat)
    requires Reached(ts, p, s, i, count) && i < count
    ensures p < |ts| && s[i] == ts[p]
    ensures Opens(ts[p]) && MatchEnd(ts, p + 1, 1).None? ==> Flatten(ts, 0).None?
  {
    assert s[i] == s[i..count][0] == ts[p..][0];
  }

  lemma ReachedEnd(ts: seq<Token>, p: nat, s: seq<Token>, count: nat)
    requires Reached(ts, p, s, count, count)
    ensures Flatten(ts, 0) == Some(s[..count])
  {
    assert |ts[p..]| == |s[count..count]| == 0;
    assert s[..count] + [] == s[..count];
  }

  /** Tokens `p` to `p + diff` become `t`, in place of `s[i..i + diff + 1]`. */
  lemma ReachedNext(ts: seq<Token>, p: nat, diff: nat, q: nat, t: Token, s: seq<Token>, i: nat, count: nat,
          s': seq<Token>, count': nat)
    requires Reached(ts, p, s, i, count) && p + diff < |ts| && q == p + diff + 1
    requires if Opens(ts[p]) then MatchEnd(ts, p + 1, 1) == Some(p + diff) && t == Merged(ts, p, p + diff)
             else diff == 0 && t == ts[p]
    requires i < count' == count - diff && count' <= |s'|
    requires s'[..i] == s[..i] && s'[i] == t && s'[i + 1..count'] == s[i + 1 + diff..count]
    ensures Reached(ts, q, s', i + 1, count')
  {
    FlattenFrom(ts, p, diff, q, t, s[..i]);
    SplitAt(s', i);
    RestOfSlice(s, i, count, ts, p, diff, q);
  }

  lemma FlattenFrom(ts: seq<Token>, p: nat, diff: nat, q: nat, t: Token, front: seq<Token>)
    requires p + diff < |ts| && q == p + diff + 1 && Flatten(ts, 0) == Prepend(front, Flatten(ts, p))
    requires if Opens(ts[p]) then MatchEnd(ts, p + 1, 1) == Some(p + diff) && t == Merged(ts, p, p + diff)
             else diff == 0 && t == ts[p]
    ensures Flatten(ts, 0) == Prepend(front + [t], Flatten(ts, q))
  {
    FlattenUnfolds(ts, p, p + diff, t);
    PrependTwice(front, [t], Flatten(ts, q));
  }

  lemma RestOfSlice<T>(s: seq<T>, i: nat, count: nat, ts: seq<T>, p: nat, diff: nat, q: nat)
    requires i + diff < count <= |s| && p <= |ts| && s[i..count] == ts[p..] && q == p + diff + 1 && q <= |ts|
    ensures s[i + 1 + diff..count] == ts[q..]
  {
    assert s[i..count][diff + 1..] == s[i + 1 + diff..count];
    assert ts[p..][diff + 1..] == ts[q..];
  }

  /** The depth-counting loop: the closer of the opener at `i`. */
  method FindClose(tokens: array<Token>, i: nat, count: nat, ghost ts: seq<Token>, ghost p: nat)
    returns (end: Option<nat>)
    requires i < count && Reached(ts, p, tokens[..], i, count) && p < |ts| && Opens(tokens[i])
    ensures end == (var e := MatchEnd(ts, p + 1, 1); if e.None? then None else Some(e.value - p + i))
  {
    var depth := 1;
    var j := i + 1;
    while j < count
      invariant i + 1 <= j <= count && depth >= 1
      invariant MatchEnd(ts, p + 1, 1) == MatchEnd(ts, p + (j - i), depth)
    {
      assert tokens[j] == tokens[..][i..count][j - i] == ts[p + (j - i)];
      if Opens(tokens[j]) {
        depth := depth + 1;
      } else if Closes(tokens[j]) {
        if depth == 1 {
          return Some(j);
        }
        depth := depth - 1;
      }
      j := j + 1;
    }
    return None;
  }

  /** Merges tokens `i` to `i + diff` into token `i` and closes the gap among the first `count` tokens. */
  method MergeSpan(tokens: array<Token>, i: nat, diff: nat, count: nat, ghost ts: seq<Token>, ghost p: nat)
    returns (newCount: nat, ghost q: nat)
    requires 0 < diff && i + diff < count && Reached(ts, p, tokens[..], i, count)
    requires p < |ts| && Opens(ts[p]) && MatchEnd(ts, p + 1, 1) == Some(p + diff)
    modifies tokens
    ensures i < newCount <= count && Reached(ts, q, tokens[..], i + 1, newCount)
  {
    ghost var was := tokens[..];
    SpanInPlace(ts, p, was, i, diff, count);
    MergeTokens(tokens, i, diff, ts, p);
    newCount, q := CloseMerged(tokens, i, diff, count, ts, p, was);
  }

  /** The second half, where `was` are the tokens before the merge. */
  method CloseMerged(tokens: array<Token>, i: nat, diff: nat, count: nat, ghost ts: seq<Token>, ghost p: nat,
          ghost was: seq<Token>)
    returns (newCount: nat, ghost q: nat)
    requires 0 < diff && i + diff < count <= tokens.Length && p + diff < |ts| && Reached(ts, p, was, i, count)
    requires Opens(ts[p]) && MatchEnd(ts, p + 1, 1) == Some(p + diff)
    requires |was| == tokens.Length && tokens[..] == was[i := Merged(ts, p, p + diff)]
    modifies tokens
    ensures i < newCount <= count && Reached(ts, q, tokens[..], i + 1, newCount)
  {
    ghost var merged := tokens[..];
    CloseGap(tokens, i + 1, diff, count);
    newCount, q := count - diff, p + diff + 1;
    MergedInPlace(ts, p, diff, was, merged, i, count, tokens[..], newCount, q, i + 1 + diff, Merged(ts, p, p + diff));
  }

  /** The merge itself, which leaves the other tokens alone. */
  method MergeTokens(tokens: array<Token>, i: nat, diff: nat, ghost ts: seq<Token>, ghost p: nat)
    requires 0 < diff && i + diff < tokens.Length && p + diff < |ts|
    requires tokens[..][i..i + diff + 1] == ts[p..p + diff + 1] && tokens[i] == ts[p]
    modifies tokens
    ensures tokens[..] == old(tokens[..])[i := Merged(ts, p, p + diff)]
  {
    AppendTexts(tokens, i, i + diff);
    tokens[i] := tokens[i].(ttype := Comment);
  }

  lemma MergedInPlace(ts: seq<Token>, p: nat, diff: nat, was: seq<Token>, merged: seq<Token>, i: nat, count: nat,
          now: seq<Token>, newCount: nat, q: nat, tail: nat, t: Token)
    requires Reached(ts, p, was, i, count) && p < |ts| && Opens(ts[p]) && MatchEnd(ts, p + 1, 1) == Some(p + diff)
    requires diff > 0 && p + diff < |ts| && i + diff < count <= |was| == |now|
    requires newCount == count - diff && q == p + diff + 1 && tail == i + 1 + diff
    requires t == Merged(ts, p, p + diff) && merged == was[i := t]
    requires now[..i + 1] == merged[..i + 1] && now[i + 1..newCount] == merged[tail..count]
    ensures Reached(ts, q, now, i + 1, newCount)
  {
    MergedSlices(was, merged, now, i, tail, count, newCount, t);
    ReachedNext(ts, p, diff, q, t, was, i, count, now, newCount);
  }

  lemma MergedSlices<T>(was: seq<T>, merged: seq<T>, now: seq<T>, i: nat, tail: nat, count: nat, newCount: nat, x: T)
    requires i < tail <= count <= |was| == |now| && i < newCount <= |now| && merged == was[i := x]
    requires now[..i + 1] == merged[..i + 1] && now[i + 1..newCount] == merged[tail..count]
    ensures now[..i] == was[..i] && now[i] == x && now[i + 1..newCount] == was[tail..count]
  {
    assert now[..i] == now[..i + 1][..i] && now[i] == now[..i + 1][i];
  }

  /** The tokens to be merged are still those of the input. */
  lemma SpanInPlace(ts: seq<Token>, p: nat, was: seq<Token>, i: nat, diff: nat, count: nat)
    requires i + diff < count && Reached(ts, p, was, i, count) && p + diff < |ts|
    ensures was[i..i + diff + 1] == ts[p..p + diff + 1] && was[i] == ts[p]
  {
    assert was[i..i + diff + 1] == was[i..count][..diff + 1];
    assert was[i] == was[i..count][0];
  }

  /** Appends the text of tokens `i + 1` to `end` to token `i`. */
  method AppendTexts(tokens: array<Token>, i: nat, end: nat)
    requires i < end < tokens.Length
    modifies tokens
    ensures tokens[..] == old(tokens[..])[i := old(tokens[i]).(data := Text(old(tokens[..])[i..end + 1]))]
  {
    ghost var was := tokens[..];
    var j := i + 1;
    assert was[i..i + 1] == [was[i]] && [was[i]][1..] == [] && was[i].data + "" == was[i].data;
    while j <= end
      invariant i + 1 <= j <= end + 1
      invariant tokens[i] == was[i].(data := Text(was[i..j]))
      invariant forall k | 0 <= k < tokens.Length && k != i :: tokens[k] == was[k]
    {
      assert was[i..j + 1] == was[i..j] + [was[j]];
      TextOfConcat(was[i..j], [was[j]]);
      assert [was[j]][1..] == [] && was[j].data + "" == was[j].data;
      tokens[i] := tokens[i].(data := tokens[i].data + tokens[j].data);
      j := j + 1;
    }
  }

  /** Shifts the tokens behind a gap of `diff` tokens at `from` down over it. */
  method CloseGap(tokens: array<Token>, from: nat, diff: nat, count: nat)
    requires from + diff <= count <= tokens.Length
    modifies tokens
    ensures tokens[..][..from] == old(tokens[..])[..from]
    ensures tokens[..][from..count - diff] == old(tokens[..])[from + diff..count]
  {
    ghost var was := tokens[..];
    var j := from;
    while j + diff < count
      invariant from <= j <= count - diff
      invariant forall k | 0 <= k < from :: tokens[k] == was[k]
      invariant forall k | from <= k < j :: tokens[k] == was[k + diff]
      invariant forall k | j <= k < tokens.Length :: tokens[k] == was[k]
    {
      tokens[j] := tokens[j + diff];
      j := j + 1;
    }
    SlicesOfShifted(tokens[..], was, from, diff, count);
  }

  lemma SlicesOfShifted<T>(now: seq<T>, was: seq<T>, from: nat, diff: nat, count: nat)
    requires from + diff <= count <= |now| == |was|
    requires forall k | 0 <= k < from :: now[k] == was[k]
    requires forall k | from <= k < count - diff :: now[k] == was[k + diff]
    ensures now[..from] == was[..from] && now[from..count - diff] == was[from + diff..count]
  {
  }

  /** `tokenizeData`: the tokens of a text with nested comments merged, or `None` where it raises an error. */
  method TokenizeData(data: string, rules: seq<Rule>) returns (r: Option<seq<Token>>)
    requires Sound(rules)
    ensures r == Flatten(Tokens(data, rules, 1), 0)
    ensures r.Some? <==> AllMatched(Tokens(data, rules, 1), 0)
    ensures r.Some? ==> Flat(r.value, data, 1)
    ensures r.Some? ==> exists cuts :: IsCutting(Tokens(data, rules, 1), 0, r.value, cuts)
  {
    var ts := Tokenize(data, rules);
    TokensAreLossless(data, rules, 1);
    r := Flattened(ts, data);
  }

  /** The second half: the tokens as an array, flattened in place. */
  method Flattened(ts: seq<Token>, ghost data: string) returns (r: Option<seq<Token>>)
    requires Text(ts) == data && LinesFrom(ts, 1)
    ensures r == Flatten(ts, 0) && (r.Some? <==> AllMatched(ts, 0))
    ensures r.Some? ==> Flat(r.value, data, 1) && exists cuts :: IsCutting(ts, 0, r.value, cuts)
  {
    FlattenSucceedsIffAllMatched(ts, 0);
    var tokens := new Token[|ts|](k requires 0 <= k < |ts| => ts[k]);
    assert tokens[..] == ts;
    var ok, count := FlattenComments(tokens);
    if !ok {
      return None;
    }
    FlattenedIsRight(ts, data);
    return Some(tokens[..count]);
  }

  lemma FlattenedIsRight(ts: seq<Token>, data: string)
    requires Text(ts) == data && LinesFrom(ts, 1) && Flatten(ts, 0).Some?
    ensures Flat(Flatten(ts, 0).value, data, 1)
    ensures exists cuts :: IsCutting(ts, 0, Flatten(ts, 0).value, cuts)
  {
    assert ts[0..] == ts;
    FlattenIsLossless(ts, 0, 1);
    var cuts := FlattenedPieces(ts, 0);
  }
}
