/**
 Reading the imports of one source file: comment filter, token stream and import list
 (doc/dimple.d:17-244).  This module says what each stage makes of its whole input; the pull machines
 are in `ImportReader`.
 */
module ImportLexer {
  import opened Options
  import opened TextLines

  // ---------------------------------------------------------------- the comment filter

  datatype FilterState =
    | Echo | Slash | LineComment | BlockComment | Star
    | DQuote | DQEscape | SQuote | SQEscape | AQuote

  /** The state after `c`, which is no carriage return. */
  function NextState(st: FilterState, c: char): FilterState {
    match st
    case Echo =>
      if c == '/' then Slash
      else if c == '"' then DQuote
      else if c == '\'' then SQuote
      else if c == '`' then AQuote
      else Echo
    case AQuote => if c == '`' then Echo else AQuote
    case SQEscape => SQuote
    case SQuote => if c == '\'' then Echo else if c == '\\' then SQEscape else SQuote
    case DQuote => if c == '"' then Echo else if c == '\\' then DQEscape else DQuote
    case DQEscape => DQuote
    case Slash => if c == '/' then LineComment else if c == '*' then BlockComment else Echo
    case LineComment => if c == '\n' then Echo else LineComment
    case BlockComment => if c == '*' then Star else BlockComment
    case Star => if c == '/' then Echo else Star
  }

  /** The characters that `c` releases. */
  function Emitted(st: FilterState, c: char): string {
    match st
    case Echo => if c == '/' then "" else [c]
    case Slash => if c == '/' then "" else if c == '*' then " " else ['/', c]
    case LineComment => if c == '\n' then [c] else ""
    case BlockComment => if c == '\n' then [c] else ""
    case Star => if c == '\n' then [c] else ""
    case _ => [c]
  }

  /** Everything the filter delivers from state `st` on. */
  function Filter(st: FilterState, s: string): string
    decreases |s|
  {
    if s == "" then ""
    else if s[0] == '\r' then Filter(st, s[1..])
    else Emitted(st, s[0]) + Filter(NextState(st, s[0]), s[1..])
  }

  /** Line structure survives the filter, carriage returns do not. */
  lemma {:induction false} FilterKeepsLines(st: FilterState, s: string)
    ensures Newlines(Filter(st, s)) == Newlines(s)
    ensures '\r' !in Filter(st, s)
    decreases |s|
  {
    if s != "" {
      if s[0] == '\r' {
        FilterKeepsLines(st, s[1..]);
      } else {
        FilterKeepsLines(NextState(st, s[0]), s[1..]);
        NewlinesOfConcat(Emitted(st, s[0]), Filter(NextState(st, s[0]), s[1..]));
        NewlinesOfEmitted(st, s[0]);
      }
    }
  }

  lemma NewlinesOfEmitted(st: FilterState, c: char)
    ensures Newlines(Emitted(st, c)) == if c == '\n' then 1 else 0
  {
    assert Newlines([c]) == if c == '\n' then 1 else 0;
    assert ['/', c][1..] == [c];
  }

  /** The state of a filter that reads the output of a filter in state `st`. */
  function Downstream(st: FilterState): FilterState {
    if st.Slash? || st.LineComment? || st.BlockComment? || st.Star? then Echo else st
  }

  lemma {:induction false} FilterIsStable(st: FilterState, s: string)
    ensures Filter(Downstream(st), Filter(st, s)) == Filter(st, s)
    decreases |s|
  {
    if s != "" {
      var c := s[0];
      if c == '\r' {
        FilterIsStable(st, s[1..]);
      } else {
        FilterIsStable(NextState(st, c), s[1..]);
        EmittedIsStable(st, c, Filter(NextState(st, c), s[1..]));
      }
    }
  }

  /** What a character releases passes a filter downstream unchanged. */
  lemma EmittedIsStable(st: FilterState, c: char, rest: string)
    requires c != '\r' && Filter(Downstream(NextState(st, c)), rest) == rest
    ensures Filter(Downstream(st), Emitted(st, c) + rest) == Emitted(st, c) + rest
  {
    var e := Emitted(st, c);
    if |e| == 1 {
      assert e + rest == [e[0]] + rest;
      FilterOfCons(Downstream(st), e[0], rest);
    } else if |e| == 2 {
      assert e + rest == ['/'] + ([c] + rest);
      FilterOfCons(Echo, '/', [c] + rest);
      FilterOfCons(Slash, c, rest);
    } else {
      assert e + rest == rest;
    }
  }

  /** Filtering twice is filtering once. */
  lemma FilterIsIdempotent(s: string)
    ensures Filter(Echo, Filter(Echo, s)) == Filter(Echo, s)
  {
    FilterIsStable(Echo, s);
  }

  // ---------------------------------------------------------------- where a block comment ends

  /** How many characters pass before the filter is back in `Echo`. */
  function Closing(st: FilterState, s: string): Option<nat>
    decreases |s|
  {
    if s == "" then None
    else
      var next := if s[0] == '\r' then st else NextState(st, s[0]);
      if next == Echo then Some(1)
      else
        var r := Closing(next, s[1..]);
        if r.None? then None else Some(r.value + 1)
  }

  /** No slash after the first star. */
  predicate NoSlashAfterStar(body: string) {
    if body == "" then true
    else if body[0] == '*' then '/' !in body
    else NoSlashAfterStar(body[1..])
  }

  /** `*` does not lead back to the comment state, so from there on any slash ends the comment. */
  lemma {:induction false} StarEndsAtSlash(s: string)
    ensures Closing(Star, s + "*/") == Some(|s| + 2) <==> '/' !in s
  {
    if s == "" {
      assert (s + "*/")[1..] == "/";
      assert Closing(Star, "/") == Some(1);
    } else {
      assert (s + "*/")[1..] == s[1..] + "*/";
      assert '/' in s <==> s[0] == '/' || '/' in s[1..];
      StarEndsAtSlash(s[1..]);
    }
  }

  /**
   A block comment is skipped up to its terminator exactly when its body has no slash after its first
   star.  (Bodies that contain a terminator of their own have one.)
   */
  lemma {:induction false} CommentEndsAtTerminator(body: string)
    ensures Closing(BlockComment, body + "*/") == Some(|body| + 2) <==> NoSlashAfterStar(body)
  {
    if body == "" {
      assert (body + "*/")[1..] == "/";
      assert Closing(Star, "/") == Some(1);
    } else {
      assert (body + "*/")[1..] == body[1..] + "*/";
      if body[0] == '*' {
        StarEndsAtSlash(body[1..]);
      } else {
        CommentEndsAtTerminator(body[1..]);
      }
    }
  }

  lemma FilterOfCons(st: FilterState, c: char, rest: string)
    requires c != '\r'
    ensures Filter(st, [c] + rest) == Emitted(st, c) + Filter(NextState(st, c), rest)
  {
  }

  lemma StarSkipsToSlash()
    ensures Filter(Star, "2/4*/") == "4*"
  {
    FilterOfCons(Echo, '4', "*/");
    FilterOfCons(Star, '/', "4*/");
    FilterOfCons(Star, '2', "/4*/");
    assert Filter(Echo, "*/") == "*";
  }

  // A comment that is not skipped whole: it ends at its slash and the rest stays in the text.
  lemma StarredDivisionLeaks()
    ensures Filter(Echo, "/**2/4*/") == " 4*"
  {
    StarSkipsToSlash();
    FilterOfCons(BlockComment, '*', "2/4*/");
    FilterOfCons(Slash, '*', "*2/4*/");
    FilterOfCons(Echo, '/', "**2/4*/");
  }

  // ---------------------------------------------------------------- tokens

  predicate IsBlank(c: char) {
    c == ' ' || c == '\n' || c == '\t'
  }

  predicate EndsWord(c: char) {
    IsBlank(c) || c == ';' || c == ','
  }

  /** A token and the text behind it. */
  datatype Lexeme = Lexeme(text: string, rest: string)

  function Extend(t: string, r: Option<Lexeme>): Option<Lexeme> {
    if r.None? then None else Some(Lexeme(t + r.value.text, r.value.rest))
  }

  /** The rest of a literal up to its closing `quote`; `None` when the text ends first. */
  function Literal(quote: char, escapes: bool, s: string): (r: Option<Lexeme>)
    ensures r.Some? ==> |r.value.rest| < |s|
    decreases |s|
  {
    if s == "" then None
    else if s[0] == quote then Some(Lexeme([s[0]], s[1..]))
    else if escapes && s[0] == '\\' then
      if |s| == 1 then None else Extend(s[..2], Literal(quote, escapes, s[2..]))
    else Extend(s[..1], Literal(quote, escapes, s[1..]))
  }

  /** The rest of a word, which the end of the text ends too. */
  function Word(s: string): (r: Lexeme)
    ensures |r.rest| <= |s|
  {
    if s == "" || EndsWord(s[0]) then Lexeme("", s)
    else
      var r := Word(s[1..]);
      Lexeme([s[0]] + r.text, r.rest)
  }

  /** The first token of a text. */
  function FirstToken(s: string): (r: Option<Lexeme>)
    ensures r.Some? ==> |r.value.rest| < |s|
  {
    if s == "" then None
    else if IsBlank(s[0]) then FirstToken(s[1..])
    else if s[0] == ';' || s[0] == ',' then Some(Lexeme([s[0]], s[1..]))
    else if s[0] == '"' || s[0] == '\'' then Extend([s[0]], Literal(s[0], true, s[1..]))
    else if s[0] == '`' then Extend([s[0]], Literal('`', false, s[1..]))
    else Extend([s[0]], Some(Word(s[1..])))
  }

  /** The tokens of a text up to its end or to a literal that does not end. */
  function Tokens(s: string): seq<string>
    decreases |s|
  {
    var t := FirstToken(s);
    if t.None? then [] else [t.value.text] + Tokens(t.value.rest)
  }

  // ---------------------------------------------------------------- imports

  datatype ListState = Imp | Mod

  /** The module names that the tokens import. */
  function Names(st: ListState, ts: seq<string>): seq<string>
    decreases |ts|
  {
    if ts == [] then []
    else if st.Imp? && ts[0] != "import" then Names(Imp, ts[1..])
    else if st.Mod? && ts[0] == ";" then Names(Imp, ts[1..])
    else if |ts| == 1 then []
    else [ts[1]] + Names(Mod, ts[2..])
  }

  /** The imports of a source text. */
  function ImportNames(text: string): seq<string> {
    Names(Imp, Tokens(Filter(Echo, text)))
  }
}
