/** The pull machines of doc/dimple.d:23-244: each `Next` returns `None` where the source throws ProducerExhausted. */
module ImportReader {
  import opened Options
  import opened Sequences
  import opened ImportLexer

  /** `FileCharStream`. */
  class CharStream {
    const data: string
    var pos: nat

    constructor (data: string)
      ensures this.data == data && pos == 0
    {
      this.data, pos := data, 0;
    }

    /** What is still to be read. */
    function Rest(): string
      reads this
    {
      if pos <= |data| then data[pos..] else ""
    }

    method Next() returns (r: Option<char>)
      modifies this
      ensures if old(Rest()) == "" then r.None? && Rest() == ""
              else r.Some? && old(Rest()) == [r.value] + Rest()
    {
      if pos >= |data| {
        return None;
      }
      r := Some(data[pos]);
      pos := pos + 1;
    }
  }

  class CommentFilter {
    const parent: CharStream
    var state: FilterState
    var cached: bool
    var c: char

    constructor (parent: CharStream)
      ensures this.parent == parent && state == Echo && !cached
    {
      this.parent, state, cached, c := parent, Echo, false, ' ';
    }

    /** What is still to be delivered. */
    function Pending(): string
      reads this, parent
    {
      (if cached then [c] else "") + Filter(state, parent.Rest())
    }

    method Next() returns (r: Option<char>)
      modifies this, parent
      ensures if old(Pending()) == "" then r.None? && Pending() == ""
              else r.Some? && old(Pending()) == [r.value] + Pending()
    {
      if cached {
        assert "" + Filter(state, parent.Rest()) == Filter(state, parent.Rest());
        cached := false;
        return Some(c);
      }
      ghost var all := Pending();
      while true
        invariant !cached && Filter(state, parent.Rest()) == all
        decreases |parent.Rest()|
      {
        ghost var before := state;
        var ch := parent.Next();
        if ch.None? {
          return None;
        }
        c := ch.value;
        ReturnIsSkipped(before, parent.Rest());
        if c == '\r' {
          continue;
        }
        var out := Consume();
        Released(before, c, parent.Rest(), out, cached);
        if out.Some? {
          return out;
        }
      }
    }

    /** The switch over the states: `None` is `continue`. */
    method Consume() returns (out: Option<char>)
      requires !cached
      modifies this`state, this`cached
      ensures state == NextState(old(state), c)
      ensures Emitted(old(state), c) == (if out.Some? then [out.value] else "") + (if cached then [c] else "")
      ensures cached ==> out.Some?
    {
      match state
      case Echo =>
        if c == '/' {
          state := Slash;
          return None;
        }
        if c == '"' {
          state := DQuote;
        } else if c == '\'' {
          state := SQuote;
        } else if c == '`' {
          state := AQuote;
        }
        return Some(c);
      case AQuote =>
        if c == '`' {
          state := Echo;
        }
        return Some(c);
      case SQEscape =>
        state := SQuote;
        return Some(c);
      case SQuote =>
        if c == '\'' {
          state := Echo;
        } else if c == '\\' {
          state := SQEscape;
        }
        return Some(c);
      case DQuote =>
        if c == '"' {
          state := Echo;
        } else if c == '\\' {
          state := DQEscape;
        }
        return Some(c);
      case DQEscape =>
        state := DQuote;
        return Some(c);
      case Slash =>
        if c == '/' {
          state := LineComment;
          return None;
        }
        if c == '*' {
          state := BlockComment;
          return Some(' ');
        }
        state := Echo;
        cached := true;
        return Some('/');
      case LineComment =>
        if c != '\n' {
          return None;
        }
        state := Echo;
        return Some(c);
      case BlockComment =>
        if c == '\n' {
          return Some(c);
        }
        if c == '*' {
          state := Star;
        }
        return None;
      case Star =>
        if c == '\n' {
          return Some(c);
        }
        if c == '/' {
          state := Echo;
        }
        return None;
    }
  }

  lemma HeadAndTail(c: char, s: string)
    ensures ([c] + s)[0] == c && ([c] + s)[1..] == s && "" + s == s
  {
  }

  lemma ReturnIsSkipped(st: FilterState, rest: string)
    ensures Filter(st, ['\r'] + rest) == Filter(st, rest)
  {
    HeadAndTail('\r', rest);
  }

  /** What a character makes the filter deliver, `out` at once and the character itself from the cache. */
  lemma Released(st: FilterState, c: char, rest: string, out: Option<char>, cached: bool)
    requires c != '\r' && (cached ==> out.Some?)
    requires Emitted(st, c) == (if out.Some? then [out.value] else "") + (if cached then [c] else "")
    ensures var later := Filter(NextState(st, c), rest);
      Filter(st, [c] + rest) ==
      if out.Some? then [out.value] + ((if cached then [c] else "") + later) else later
  {
    var later := Filter(NextState(st, c), rest);
    FilterOfCons(st, c, rest);
    if out.Some? {
      Associative([out.value], if cached then [c] else "", later);
    } else {
      assert "" + later == later;
    }
  }

  class TokenStream {
    const parent: CommentFilter
    var c: char

    constructor (parent: CommentFilter)
      ensures this.parent == parent && c == ' '
    {
      this.parent, c := parent, ' ';
    }

    /** The character in hand and everything behind it. */
    function Pending(): string
      reads this, parent, parent.parent
    {
      [c] + parent.Pending()
    }

    method Next() returns (token: Option<string>)
      modifies this, parent, parent.parent
      ensures token.Some? ==> Tokens(old(Pending())) == [token.value] + Tokens(Pending())
      ensures token.None? ==> Tokens(old(Pending())) == []
    {
      while IsBlank(c)
        invariant Tokens(Pending()) == Tokens(old(Pending()))
        decreases |parent.Pending()|, IsBlank(c)
      {
        ghost var rest := parent.Pending();
        assert Pending()[1..] == rest;
        var r := parent.Next();
        if r.None? {
          return None;
        }
        c := r.value;
        assert Pending() == rest;
      }
      ghost var behind := parent.Pending();
      HeadAndTail(c, behind);
      if c == ';' || c == ',' {
        token := Some([c]);
        c := ' ';
        BlankIsSkipped(behind);
      } else if c == '"' || c == '\'' || c == '`' {
        token := QuotedToken(c, c != '`');
      } else {
        var word := WordToken();
        token := Some(word);
      }
    }

    /** The literal branches: characters up to the closing quote, taking an escaped character along. */
    method QuotedToken(quote: char, escapes: bool) returns (token: Option<string>)
      requires quote != '\\'
      modifies this, parent, parent.parent
      ensures var l := Literal(quote, escapes, old(parent.Pending()));
        if l.None? then token.None?
        else token == Some([quote] + l.value.text) && parent.Pending() == l.value.rest && c == ' '
      ensures token.Some? ==> Tokens(Pending()) == Tokens(parent.Pending())
    {
      var t := [quote];
      ghost var all := Extend([quote], Literal(quote, escapes, parent.Pending()));
      while true
        invariant Extend(t, Literal(quote, escapes, parent.Pending())) == all
        decreases |parent.Pending()|
      {
        ghost var begun := t;
        var r := parent.Next();
        if r.None? {
          return None;
        }
        c := r.value;
        t := t + [c];
        if c == quote {
          LiteralEnds(begun, quote, escapes, parent.Pending());
          c := ' ';
          BlankIsSkipped(parent.Pending());
          return Some(t);
        }
        if escapes && c == '\\' {
          r := parent.Next();
          if r.None? {
            return None;
          }
          c := r.value;
          t := t + [c];
          EscapeInLiteral(begun, quote, c, parent.Pending());
        } else {
          PlainInLiteral(begun, quote, escapes, c, parent.Pending());
        }
      }
    }

    /** The default branch: characters up to a blank, `;` or `,`, which stays in hand. */
    method WordToken() returns (word: string)
      requires !EndsWord(c)
      modifies this, parent, parent.parent
      ensures word == [old(c)] + Word(old(parent.Pending())).text
      ensures Tokens(Pending()) == Tokens(Word(old(parent.Pending())).rest)
    {
      var t := "";
      ghost var all := Longer("", c, parent.Pending());
      assert "" + [c] == [c];
      while true
        invariant !EndsWord(c) && Longer(t, c, parent.Pending()) == all
        decreases |parent.Pending()|
      {
        ghost var begun, last, rest := t, c, parent.Pending();
        t := t + [c];
        var r := parent.Next();
        if r.None? {
          LongerEnds(begun, last, rest);
          c := ' ';
          BlankIsSkipped("");
          return t;
        }
        c := r.value;
        if EndsWord(c) {
          LongerEnds(begun, last, rest);
          return t;
        }
        LongerByOne(begun, last, c, parent.Pending());
      }
    }
  }

  /** The word that begins with `t` and `c`. */
  function Longer(t: string, c: char, s: string): Lexeme {
    Lexeme(t + [c] + Word(s).text, Word(s).rest)
  }

  lemma LongerByOne(t: string, c: char, d: char, s: string)
    requires !EndsWord(d)
    ensures Longer(t, c, [d] + s) == Longer(t + [c], d, s)
  {
  }

  lemma LongerEnds(t: string, c: char, s: string)
    requires s == "" || EndsWord(s[0])
    ensures Longer(t, c, s) == Lexeme(t + [c], s)
  {
    assert t + [c] + "" == t + [c];
  }

  /** The character `c` of a literal that neither ends it nor escapes another. */
  lemma PlainInLiteral(t: string, quote: char, escapes: bool, c: char, s: string)
    requires c != quote && !(escapes && c == '\\')
    ensures Extend(t, Literal(quote, escapes, [c] + s)) == Extend(t + [c], Literal(quote, escapes, s))
  {
    assert ([c] + s)[..1] == [c] && ([c] + s)[1..] == s;
    ExtendTwice(t, [c], Literal(quote, escapes, s));
  }

  lemma EscapeInLiteral(t: string, quote: char, c: char, s: string)
    requires quote != '\\'
    ensures Extend(t, Literal(quote, true, ['\\'] + ([c] + s))) == Extend(t + ['\\'] + [c], Literal(quote, true, s))
  {
    var all := ['\\'] + ([c] + s);
    assert all[..2] == ['\\'] + [c] && all[2..] == s;
    ExtendTwice(t, ['\\'] + [c], Literal(quote, true, s));
    Associative(t, ['\\'], [c]);
  }

  lemma LiteralEnds(t: string, quote: char, escapes: bool, s: string)
    ensures Extend(t, Literal(quote, escapes, [quote] + s)) == Some(Lexeme(t + [quote], s))
  {
    HeadAndTail(quote, s);
  }

  lemma ExtendTwice(a: string, b: string, r: Option<Lexeme>)
    ensures Extend(a, Extend(b, r)) == Extend(a + b, r)
  {
    if r.Some? {
      assert a + (b + r.value.text) == a + b + r.value.text;
    }
  }

  lemma BlankIsSkipped(s: string)
    ensures Tokens([' '] + s) == Tokens(s)
  {
  }

  class ImportList {
    const parent: TokenStream
    var state: ListState

    constructor (parent: TokenStream)
      ensures this.parent == parent && state == Imp
    {
      this.parent, state := parent, Imp;
    }

    /** The names still to be delivered. */
    function Pending(): seq<string>
      reads this, parent, parent.parent, parent.parent.parent
    {
      Names(state, Tokens(parent.Pending()))
    }

    method Next() returns (name: Option<string>)
      modifies this, parent, parent.parent, parent.parent.parent
      ensures old(Pending()) == [] ==> name.None?
      ensures old(Pending()) != [] ==> name == Some(old(Pending())[0]) && Pending() == old(Pending())[1..]
    {
      if state.Mod? {
        var t := parent.Next();
        if t.None? {
          return None;
        }
        NamesOfCons(Mod, t.value, Tokens(parent.Pending()));
        if t.value == ";" {
          state := Imp;
        }
      }
      if state.Imp? {
        var found := SkipToImport();
        if !found {
          return None;
        }
        state := Mod;
      }
      name := parent.Next();
    }

    /** The loop that reads up to and including the next `import`. */
    method SkipToImport() returns (found: bool)
      requires state.Imp?
      modifies parent, parent.parent, parent.parent.parent
      ensures found ==> old(Pending()) == AfterImport(Tokens(parent.Pending()))
      ensures !found ==> old(Pending()) == []
    {
      while true
        invariant state == Imp && Pending() == old(Pending())
        decreases |Tokens(parent.Pending())|
      {
        var t := parent.Next();
        if t.None? {
          return false;
        }
        NamesOfCons(Imp, t.value, Tokens(parent.Pending()));
        if t.value == "import" {
          return true;
        }
      }
    }
  }

  /** The names when a module name comes next. */
  function AfterImport(ts: seq<string>): seq<string> {
    if ts == [] then [] else [ts[0]] + Names(Mod, ts[1..])
  }

  lemma NamesOfCons(st: ListState, t: string, ts: seq<string>)
    ensures Names(st, [t] + ts) ==
      if st.Imp? && t != "import" then Names(Imp, ts)
      else if st.Mod? && t == ";" then Names(Imp, ts)
      else AfterImport(ts)
  {
    assert ([t] + ts)[1..] == ts;
    if ts != [] {
      assert ([t] + ts)[2..] == ts[1..];
    }
  }

  /** Reading one file to exhaustion, as the loop of `main` does. */
  method ReadImports(text: string) returns (names: seq<string>)
    ensures names == ImportNames(text)
  {
    var chars := new CharStream(text);
    var filter := new CommentFilter(chars);
    var tokens := new TokenStream(filter);
    var imported := new ImportList(tokens);
    assert chars.Rest() == text && "" + Filter(Echo, text) == Filter(Echo, text);
    BlankIsSkipped(Filter(Echo, text));
    names := Drain(imported);
  }

  method Drain(imported: ImportList) returns (names: seq<string>)
    modifies imported, imported.parent, imported.parent.parent, imported.parent.parent.parent
    ensures names == old(imported.Pending())
  {
    names := [];
    ghost var all := imported.Pending();
    var done := false;
    while !done
      invariant if done then names == all else names + imported.Pending() == all
      decreases !done, |imported.Pending()|
    {
      done, names := TakeName(imported, names, all);
    }
  }

  /** One turn of the loop. */
  method TakeName(imported: ImportList, names: seq<string>, ghost all: seq<string>)
    returns (done: bool, more: seq<string>)
    requires names + imported.Pending() == all
    modifies imported, imported.parent, imported.parent.parent, imported.parent.parent.parent
    ensures if done then more == all
            else more + imported.Pending() == all && |imported.Pending()| < |old(imported.Pending())|
  {
    ghost var pending := imported.Pending();
    var mod := imported.Next();
    if mod.None? {
      return true, names;
    }
    Shift(names, mod.value, imported.Pending(), pending, all);
    return false, names + [mod.value];
  }

  lemma Shift(names: seq<string>, name: string, rest: seq<string>, pending: seq<string>, all: seq<string>)
    requires pending == [name] + rest && names + pending == all
    ensures names + [name] + rest == all
  {
    Associative(names, [name], rest);
  }
}
