/**
 Printing import declarations and reading them back (doc/dimple.d:45-244): the reader returns exactly the
 printed names, whatever blanks and comments stand between the tokens.
 */
module ImportRoundTrip {
  import opened Options
  import opened Sequences
  import opened ImportLexer
  import opened ImportPieces

  /** What may stand between two tokens. */
  datatype Filler =
    | Blank(c: char)
    | Return                         // a carriage return, which counts as nothing
    | LineNote(body: string)         // `//` to the end of the line
    | BlockNote(body: string)        // `/*` to `*/`

  predicate ValidFiller(f: Filler) {
    match f
    case Blank(c) => IsBlank(c)
    case Return => true
    case LineNote(body) => '\n' !in body
    case BlockNote(body) => NoSlashAfterStar(body)
  }

  type Gap = seq<Filler>

  predicate ValidGap(g: Gap) {
    forall f | f in g :: ValidFiller(f)
  }

  function PrintFiller(f: Filler): string {
    match f
    case Blank(c) => [c]
    case Return => "\r"
    case LineNote(body) => "/" + ("/" + (body + "\n"))
    case BlockNote(body) => "/" + ("*" + (body + "*/"))
  }

  function PrintGap(g: Gap): string {
    if g == [] then "" else PrintFiller(g[0]) + PrintGap(g[1..])
  }

  /** A gap with nothing but carriage returns separates nothing. */
  predicate Separates(g: Gap) {
    exists f | f in g :: !f.Return?
  }

  /** A further name of a declaration: gap, comma, gap, name. */
  datatype More = More(before: Gap, after: Gap, name: string)

  /** `import` gap name more... gap `;` gap */
  datatype Decl = Decl(space: Gap, name: string, more: seq<More>, before: Gap, after: Gap)

  predicate ValidMore(m: More) {
    ValidGap(m.before) && ValidGap(m.after) && PlainName(m.name)
  }

  predicate ValidDecl(d: Decl) {
    && ValidGap(d.space) && Separates(d.space) && PlainName(d.name)
    && (forall m | m in d.more :: ValidMore(m))
    && ValidGap(d.before) && ValidGap(d.after)
  }

  function PrintMore(ms: seq<More>): string {
    if ms == [] then ""
    else PrintGap(ms[0].before) + ("," + (PrintGap(ms[0].after) + (ms[0].name + PrintMore(ms[1..]))))
  }

  function PrintDecl(d: Decl): string {
    "import" + (PrintGap(d.space) + (d.name + (PrintMore(d.more) + (PrintGap(d.before) + (";" + PrintGap(d.after))))))
  }

  function NamesOfMore(ms: seq<More>): seq<string> {
    if ms == [] then [] else [ms[0].name] + NamesOfMore(ms[1..])
  }

  /** What a file is made of: import declarations, and any other tokens, each with the gap behind it. */
  datatype Item =
    | Import(d: Decl)
    | Word(word: seq<Atom>, gap: Gap)
    | Text(literal: StringLiteral, gap: Gap)
    | Mark(c: char, gap: Gap)

  predicate ValidItem(i: Item) {
    match i
    case Import(d) => ValidDecl(d)
    case Word(word, gap) => ValidWord(word) && PrintWord(word) != "import" && ValidGap(gap)
    case Text(literal, gap) => ValidLiteral(literal) && ValidGap(gap)
    case Mark(c, gap) => (c == ';' || c == ',') && ValidGap(gap)
  }

  /** Valid items, where a gap separates a word from what comes next, unless that is a mark or nothing. */
  predicate ValidItems(items: seq<Item>) {
    items == [] ||
    (&& ValidItem(items[0]) && ValidItems(items[1..])
     && (items[0].Word? ==> Separates(items[0].gap) || |items| == 1 || items[1].Mark?))
  }

  function PrintItem(i: Item): string {
    match i
    case Import(d) => PrintDecl(d)
    case Word(word, gap) => PrintWord(word) + PrintGap(gap)
    case Text(literal, gap) => PrintLiteral(literal) + PrintGap(gap)
    case Mark(c, gap) => [c] + PrintGap(gap)
  }

  function Print(items: seq<Item>): string {
    if items == [] then "" else PrintItem(items[0]) + Print(items[1..])
  }

  /** The names that the declarations among the items import. */
  function Declared(items: seq<Item>): seq<string> {
    if items == [] then []
    else (if items[0].Import? then [items[0].d.name] + NamesOfMore(items[0].d.more) else []) + Declared(items[1..])
  }

  // ---------------------------------------------------------------- through the filter

  ghost predicate AllBlank(s: string) {
    forall k | 0 <= k < |s| :: IsBlank(s[k])
  }

  lemma {:induction false} FilterOfPlain(n: string, rest: string)
    requires forall k | 0 <= k < |n| :: Inert(n[k])
    ensures Filter(Echo, n + rest) == n + Filter(Echo, rest)
  {
    if n == "" {
      assert n + rest == rest;
    } else {
      assert (n + rest)[1..] == n[1..] + rest;
      FilterOfPlain(n[1..], rest);
    }
  }

  /** The line feeds of a skipped body, which the filter lets through. */
  function LineFeeds(body: string): string {
    if body == "" then "" else (if body[0] == '\n' then "\n" else "") + LineFeeds(body[1..])
  }

  lemma {:induction false} LineFeedsAreBlank(body: string)
    ensures AllBlank(LineFeeds(body))
  {
    if body != "" {
      LineFeedsAreBlank(body[1..]);
    }
  }

  lemma {:induction false} FilterOfLineNote(body: string, rest: string)
    requires '\n' !in body
    ensures Filter(LineComment, body + ("\n" + rest)) == "\n" + Filter(Echo, rest)
  {
    var s := body + ("\n" + rest);
    if body == "" {
      assert s == "\n" + rest && s[1..] == rest;
    } else {
      assert s[1..] == body[1..] + ("\n" + rest);
      FilterOfLineNote(body[1..], rest);
    }
  }

  lemma {:induction false} FilterOfBody(st: FilterState, body: string, rest: string)
    requires st.BlockComment? || st.Star?
    requires if st.Star? then '/' !in body else NoSlashAfterStar(body)
    ensures Filter(st, body + ("*/" + rest)) == LineFeeds(body) + Filter(Echo, rest)
    decreases |body|
  {
    if body == "" {
      FilterOfCons(Star, '/', rest);
      FilterOfCons(st, '*', "/" + rest);
      assert body + ("*/" + rest) == ['*'] + (['/'] + rest);
    } else {
      var tail := body[1..] + ("*/" + rest);
      assert body + ("*/" + rest) == [body[0]] + tail;
      assert ([body[0]] + tail)[1..] == tail;
      FilterOfBody(if body[0] == '\r' then st else NextState(st, body[0]), body[1..], rest);
      if body[0] != '\r' {
        FilterOfCons(st, body[0], tail);
        assert Emitted(st, body[0]) == if body[0] == '\n' then "\n" else "";
      }
      Associative(if body[0] == '\n' then "\n" else "", LineFeeds(body[1..]), Filter(Echo, rest));
    }
  }

  /** What is left of a gap: blanks only, and some whenever the gap separates. */
  function GapBlanks(g: Gap): string {
    if g == [] then "" else FillerBlanks(g[0]) + GapBlanks(g[1..])
  }

  function FillerBlanks(f: Filler): string {
    match f
    case Blank(c) => [c]
    case Return => ""
    case LineNote(body) => "\n"
    case BlockNote(body) => " " + LineFeeds(body)
  }

  lemma {:induction false} GapBlanksAreBlank(g: Gap)
    requires ValidGap(g)
    ensures AllBlank(GapBlanks(g))
    ensures Separates(g) ==> GapBlanks(g) != ""
  {
    if g != [] {
      assert g[0] in g;
      GapBlanksAreBlank(g[1..]);
      if g[0].BlockNote? {
        LineFeedsAreBlank(g[0].body);
      }
      if Separates(g) && g[0].Return? {
        var f :| f in g && !f.Return?;
        assert f in g[1..];
      }
    }
  }

  lemma FilterOfFiller(f: Filler, rest: string)
    requires ValidFiller(f)
    ensures Filter(Echo, PrintFiller(f) + rest) == FillerBlanks(f) + Filter(Echo, rest)
  {
    match f
    case Blank(c) =>
      FilterOfCons(Echo, c, rest);
    case Return =>
      assert ("\r" + rest)[1..] == rest;
    case LineNote(body) =>
      NoteSplits("/", body, "\n", rest);
      FilterOfLineNote(body, rest);
      FilterOfCons(Slash, '/', body + ("\n" + rest));
      FilterOfCons(Echo, '/', "/" + (body + ("\n" + rest)));
    case BlockNote(body) =>
      NoteSplits("*", body, "*/", rest);
      FilterOfBody(BlockComment, body, rest);
      FilterOfCons(Slash, '*', body + ("*/" + rest));
      FilterOfCons(Echo, '/', "*" + (body + ("*/" + rest)));
      Associative(" ", LineFeeds(body), Filter(Echo, rest));
  }

  lemma NoteSplits(mark: string, body: string, end: string, rest: string)
    ensures ("/" + (mark + (body + end))) + rest == "/" + (mark + (body + (end + rest)))
  {
  }

  lemma {:induction false} FilterOfGap(g: Gap, rest: string)
    requires ValidGap(g)
    ensures Filter(Echo, PrintGap(g) + rest) == GapBlanks(g) + Filter(Echo, rest)
  {
    if g == [] {
      assert PrintGap(g) + rest == rest;
    } else {
      Associative(PrintFiller(g[0]), PrintGap(g[1..]), rest);
      FilterOfFiller(g[0], PrintGap(g[1..]) + rest);
      FilterOfGap(g[1..], rest);
      Associative(FillerBlanks(g[0]), GapBlanks(g[1..]), Filter(Echo, rest));
    }
  }

  // ---------------------------------------------------------------- through the tokenizer

  lemma {:induction false} TokensSkipBlanks(b: string, s: string)
    requires AllBlank(b)
    ensures Tokens(b + s) == Tokens(s)
  {
    if b == "" {
      assert b + s == s;
    } else {
      assert (b + s)[1..] == b[1..] + s;
      TokensSkipBlanks(b[1..], s);
    }
  }

  // ---------------------------------------------------------------- one stage at a time

  /** What the reader makes of a text. */
  function Read(s: string): seq<string> {
    Tokens(Filter(Echo, s))
  }

  lemma ReadGap(g: Gap, rest: string)
    requires ValidGap(g)
    ensures Read(PrintGap(g) + rest) == Read(rest)
  {
    FilterOfGap(g, rest);
    GapBlanksAreBlank(g);
    TokensSkipBlanks(GapBlanks(g), Filter(Echo, rest));
  }

  lemma ReadMark(c: char, rest: string)
    requires c == ';' || c == ','
    ensures Read([c] + rest) == [[c]] + Read(rest)
  {
  }

  lemma ReadName(n: string, rest: string)
    requires PlainName(n) && AtBoundary(Filter(Echo, rest))
    ensures Read(n + rest) == [n] + Read(rest)
  {
    FilterOfPlain(n, rest);
    TokensOfText(n, Filter(Echo, rest));
  }

  /** A gap in front of a word end, or one that separates, ends a word. */
  lemma GapEndsWord(g: Gap, rest: string)
    requires ValidGap(g) && (Separates(g) || AtBoundary(Filter(Echo, rest)))
    ensures AtBoundary(Filter(Echo, PrintGap(g) + rest))
  {
    FilterOfGap(g, rest);
    GapBlanksAreBlank(g);
    var b := GapBlanks(g);
    if b == "" {
      assert b + Filter(Echo, rest) == Filter(Echo, rest);
    } else {
      assert IsBlank(b[0]);
    }
  }

  lemma CollectMore(ms: seq<More>, ts: seq<string>)
    requires ms != []
    ensures [","] + ([ms[0].name] + (TokensOfMore(ms[1..]) + ts)) == TokensOfMore(ms) + ts
  {
  }

  lemma PrintMoreSplits(ms: seq<More>, rest: string)
    requires ms != []
    ensures PrintMore(ms) + rest
      == PrintGap(ms[0].before) + ("," + (PrintGap(ms[0].after) + (ms[0].name + (PrintMore(ms[1..]) + rest))))
  {
    Regroup(PrintGap(ms[0].before), ",", PrintGap(ms[0].after), ms[0].name + PrintMore(ms[1..]), rest);
    Associative(ms[0].name, PrintMore(ms[1..]), rest);
  }

  lemma Regroup(a: string, b: string, c: string, d: string, rest: string)
    ensures a + (b + (c + d)) + rest == a + (b + (c + (d + rest)))
  {
    Associative(a, b + (c + d), rest);
    Associative(b, c + d, rest);
    Associative(c, d, rest);
  }

  lemma PrintDeclSplits(d: Decl, rest: string)
    ensures PrintDecl(d) + rest == "import" + (PrintGap(d.space) + (d.name
      + (PrintMore(d.more) + (PrintGap(d.before) + (";" + (PrintGap(d.after) + rest))))))
  {
    var tail := PrintGap(d.before) + (";" + PrintGap(d.after));
    Regroup("import", PrintGap(d.space), d.name, PrintMore(d.more) + tail, rest);
    Associative(PrintMore(d.more), tail, rest);
    Associative(PrintGap(d.before), ";" + PrintGap(d.after), rest);
    Associative(";", PrintGap(d.after), rest);
  }

  function TokensOfMore(ms: seq<More>): seq<string> {
    if ms == [] then [] else [",", ms[0].name] + TokensOfMore(ms[1..])
  }

  lemma {:induction false} ReadMore(ms: seq<More>, rest: string)
    requires forall m | m in ms :: ValidMore(m)
    requires AtBoundary(Filter(Echo, rest))
    ensures Read(PrintMore(ms) + rest) == TokensOfMore(ms) + Read(rest)
    ensures AtBoundary(Filter(Echo, PrintMore(ms) + rest))
  {
    if ms == [] {
      assert PrintMore(ms) + rest == rest;
    } else {
      var m := ms[0];
      assert m in ms;
      var tail := PrintMore(ms[1..]) + rest;
      ReadMore(ms[1..], rest);
      var named := m.name + tail;
      var marked := "," + (PrintGap(m.after) + named);
      PrintMoreSplits(ms, rest);
      ReadGap(m.before, marked);
      ReadMark(',', PrintGap(m.after) + named);
      ReadGap(m.after, named);
      ReadName(m.name, tail);
      GapEndsWord(m.before, marked);
      CollectMore(ms, Read(rest));
    }
  }

  function TokensOfDecl(d: Decl): seq<string> {
    ["import", d.name] + TokensOfMore(d.more) + [";"]
  }

  /** The end of a declaration: gap, semicolon, gap. */
  lemma ReadEnd(before: Gap, after: Gap, rest: string)
    requires ValidGap(before) && ValidGap(after)
    ensures var tail := PrintGap(before) + (";" + (PrintGap(after) + rest));
      Read(tail) == [";"] + Read(rest) && AtBoundary(Filter(Echo, tail))
  {
    var closed := ";" + (PrintGap(after) + rest);
    ReadMark(';', PrintGap(after) + rest);
    ReadGap(after, rest);
    ReadGap(before, closed);
    GapEndsWord(before, closed);
  }

  /** The start of a declaration, up to its first name. */
  lemma ReadHead(space: Gap, name: string, after: string)
    requires ValidGap(space) && Separates(space) && PlainName(name) && AtBoundary(Filter(Echo, after))
    ensures Read("import" + (PrintGap(space) + (name + after))) == ["import"] + ([name] + Read(after))
  {
    ReadName(name, after);
    ImportIsPlain();
    ReadNameAndGap("import", space, name + after);
  }

  lemma ImportIsPlain()
    ensures PlainName("import")
  {
  }

  lemma ReadNameAndGap(n: string, space: Gap, tail: string)
    requires PlainName(n) && ValidGap(space) && Separates(space)
    ensures Read(n + (PrintGap(space) + tail)) == [n] + Read(tail)
  {
    ReadGap(space, tail);
    GapEndsWord(space, tail);
    ReadName(n, PrintGap(space) + tail);
  }

  lemma ReadDecl(d: Decl, rest: string)
    requires ValidDecl(d)
    ensures Read(PrintDecl(d) + rest) == TokensOfDecl(d) + Read(rest)
  {
    var tail := PrintGap(d.before) + (";" + (PrintGap(d.after) + rest));
    ReadEnd(d.before, d.after, rest);
    ReadMore(d.more, tail);
    ReadHead(d.space, d.name, PrintMore(d.more) + tail);
    PrintDeclSplits(d, rest);
    Collect(d, Read(rest));
  }

  lemma Collect(d: Decl, ts: seq<string>)
    ensures ["import"] + ([d.name] + (TokensOfMore(d.more) + ([";"] + ts))) == TokensOfDecl(d) + ts
  {
  }

  // ---------------------------------------------------------------- through the import list

  lemma {:induction false} NamesOfMoreTokens(ms: seq<More>, ts: seq<string>)
    ensures Names(Mod, TokensOfMore(ms) + ([";"] + ts)) == NamesOfMore(ms) + Names(Imp, ts)
  {
    var all := TokensOfMore(ms) + ([";"] + ts);
    if ms == [] {
      assert all == [";"] + ts && all[1..] == ts;
    } else {
      CollectMore(ms, [";"] + ts);
      assert all[2..] == TokensOfMore(ms[1..]) + ([";"] + ts);
      NamesOfMoreTokens(ms[1..], ts);
      assert all[1] == ms[0].name && all[0] == ",";
    }
  }

  /** Separators, each with the name behind it. */
  function Flat(pairs: seq<(string, string)>): seq<string> {
    if pairs == [] then [] else [pairs[0].0, pairs[0].1] + Flat(pairs[1..])
  }

  function Seconds(pairs: seq<(string, string)>): seq<string> {
    if pairs == [] then [] else [pairs[0].1] + Seconds(pairs[1..])
  }

  /** `end` is what may end a statement: nothing, a semicolon and more, or a separator with no name behind it. */
  lemma {:induction false} NamesOfPairs(pairs: seq<(string, string)>, end: seq<string>)
    requires forall p | p in pairs :: p.0 != ";"
    requires end == [] || end[0] == ";" || |end| == 1
    ensures Names(Mod, Flat(pairs) + end)
         == Seconds(pairs) + if end != [] && end[0] == ";" then Names(Imp, end[1..]) else []
  {
    var all := Flat(pairs) + end;
    if pairs == [] {
      assert all == end;
    } else {
      assert pairs[0] in pairs;
      assert all[0] == pairs[0].0 && all[1] == pairs[0].1 && all[2..] == Flat(pairs[1..]) + end;
      NamesOfPairs(pairs[1..], end);
    }
  }

  /**
   Of any tokens, the names are, after each `import`, the next token and then every second one up to a semicolon,
   whatever the tokens between them.
   */
  lemma NamesOfStatement(others: seq<string>, first: string, pairs: seq<(string, string)>,
          end: seq<string>)
    requires "import" !in others && forall p | p in pairs :: p.0 != ";"
    requires end == [] || end[0] == ";" || |end| == 1
    ensures Names(Imp, others) == Names(Imp, others + ["import"]) == []
    ensures Names(Imp, others + (["import"] + ([first] + (Flat(pairs) + end))))
         == [first] + Seconds(pairs) + if end != [] && end[0] == ";" then Names(Imp, end[1..]) else []
  {
    OthersAreSkipped(others, []);
    OthersAreSkipped(others, ["import"]);
    OthersAreSkipped(others, ["import"] + ([first] + (Flat(pairs) + end)));
    assert others + [] == others;
    NamesOfImport(first, Flat(pairs) + end);
    NamesOfPairs(pairs, end);
    Associative([first], Seconds(pairs), if end != [] && end[0] == ";" then Names(Imp, end[1..]) else []);
  }

  lemma {:induction false} OthersAreSkipped(others: seq<string>, ts: seq<string>)
    requires "import" !in others
    ensures Names(Imp, others + ts) == Names(Imp, ts)
  {
    if others == [] {
      assert others + ts == ts;
    } else {
      assert others[0] in others && (others + ts)[1..] == others[1..] + ts;
      OthersAreSkipped(others[1..], ts);
    }
  }

  lemma NamesOfImport(name: string, rest: seq<string>)
    ensures Names(Imp, ["import"] + ([name] + rest)) == [name] + Names(Mod, rest)
  {
    var all := ["import"] + ([name] + rest);
    assert all[0] == "import" && all[1] == name && all[2..] == rest;
  }

  lemma NamesOfDecl(d: Decl, ts: seq<string>)
    ensures Names(Imp, TokensOfDecl(d) + ts) == [d.name] + NamesOfMore(d.more) + Names(Imp, ts)
  {
    var rest := TokensOfMore(d.more) + ([";"] + ts);
    Collect(d, ts);
    NamesOfImport(d.name, rest);
    NamesOfMoreTokens(d.more, ts);
    Associative([d.name], NamesOfMore(d.more), Names(Imp, ts));
  }

  // ---------------------------------------------------------------- item by item

  function TokensOfItem(i: Item): seq<string> {
    match i
    case Import(d) => TokensOfDecl(d)
    case Word(word, _) => [PrintWord(word)]
    case Text(literal, _) => [PrintLiteral(literal)]
    case Mark(c, _) => [[c]]
  }

  lemma ReadWord(word: seq<Atom>, gap: Gap, rest: string)
    requires ValidWord(word) && ValidGap(gap) && (Separates(gap) || AtBoundary(Filter(Echo, rest)))
    ensures Read(PrintWord(word) + (PrintGap(gap) + rest)) == [PrintWord(word)] + Read(rest)
  {
    GapEndsWord(gap, rest);
    FilterOfWord(word, PrintGap(gap) + rest);
    TokensOfWord(word, Filter(Echo, PrintGap(gap) + rest));
    ReadGap(gap, rest);
  }

  lemma ReadText(literal: StringLiteral, gap: Gap, rest: string)
    requires ValidLiteral(literal) && ValidGap(gap)
    ensures Read(PrintLiteral(literal) + (PrintGap(gap) + rest)) == [PrintLiteral(literal)] + Read(rest)
  {
    FilterOfLiteral(literal, PrintGap(gap) + rest);
    TokensOfLiteral(literal, Filter(Echo, PrintGap(gap) + rest));
    ReadGap(gap, rest);
  }

  lemma ReadItem(i: Item, rest: string)
    requires ValidItem(i) && (i.Word? && !Separates(i.gap) ==> AtBoundary(Filter(Echo, rest)))
    ensures Read(PrintItem(i) + rest) == TokensOfItem(i) + Read(rest)
  {
    match i
    case Import(d) => ReadDecl(d, rest);
    case Word(word, gap) =>
      Associative(PrintWord(word), PrintGap(gap), rest);
      ReadWord(word, gap, rest);
    case Text(literal, gap) =>
      Associative(PrintLiteral(literal), PrintGap(gap), rest);
      ReadText(literal, gap, rest);
    case Mark(c, gap) =>
      Associative([c], PrintGap(gap), rest);
      ReadMark(c, PrintGap(gap) + rest);
      ReadGap(gap, rest);
  }

  /** A text that begins with a mark, or with nothing, is at a boundary. */
  lemma MarkIsBoundary(items: seq<Item>)
    requires ValidItems(items) && (items == [] || items[0].Mark?)
    ensures AtBoundary(Filter(Echo, Print(items)))
  {
    if items != [] {
      var c, behind := items[0].c, PrintGap(items[0].gap) + Print(items[1..]);
      Associative([c], PrintGap(items[0].gap), Print(items[1..]));
      FilterOfCons(Echo, c, behind);
    }
  }

  lemma ReadFirst(items: seq<Item>)
    requires items != [] && ValidItems(items)
    ensures Read(Print(items)) == TokensOfItem(items[0]) + Read(Print(items[1..]))
  {
    if items[0].Word? && !Separates(items[0].gap) {
      MarkIsBoundary(items[1..]);
    }
    ReadItem(items[0], Print(items[1..]));
  }

  lemma NamesOfOther(t: string, ts: seq<string>)
    requires t != "import"
    ensures Names(Imp, [t] + ts) == Names(Imp, ts)
  {
    assert ([t] + ts)[1..] == ts;
  }

  lemma NamesOfItem(i: Item, ts: seq<string>)
    requires ValidItem(i)
    ensures Names(Imp, TokensOfItem(i) + ts)
         == (if i.Import? then [i.d.name] + NamesOfMore(i.d.more) else []) + Names(Imp, ts)
  {
    if i.Import? {
      NamesOfDecl(i.d, ts);
    } else {
      assert i.Text? ==> TokensOfItem(i)[0][0] == i.literal.quote;
      NamesOfOther(TokensOfItem(i)[0], ts);
      assert [] + Names(Imp, ts) == Names(Imp, ts);
    }
  }

  /**
   Reading what was printed gives the declared names in order, whatever fills the gaps and whatever other tokens
   stand between the declarations: literals with comment marks and imports in them included.
   */
  lemma {:induction false} PrintedImportsAreRead(lead: Gap, items: seq<Item>)
    requires ValidGap(lead) && ValidItems(items)
    ensures ImportNames(PrintGap(lead) + Print(items)) == Declared(items)
    decreases |items|
  {
    ReadGap(lead, Print(items));
    if items != [] {
      ReadFirst(items);
      NamesOfItem(items[0], Read(Print(items[1..])));
      PrintedImportsAreRead([], items[1..]);
      assert PrintGap([]) + Print(items[1..]) == Print(items[1..]);
    }
  }

  // ---------------------------------------------------------------- where a literal is not seen

  lemma TokensOfThree(a: string, b: string, c: string, tail: string)
    requires a != "" && InWord(a) && !IsQuote(a[0]) && b != "" && InWord(b) && !IsQuote(b[0])
    requires c != "" && InWord(c) && !IsQuote(c[0]) && AtBoundary(tail)
    ensures Tokens(a + (" " + (b + (" " + (c + tail))))) == [a] + ([b] + ([c] + Tokens(tail)))
  {
    TokensOfText(c, tail);
    TokensSkipBlanks(" ", c + tail);
    TokensOfText(b, " " + (c + tail));
    TokensSkipBlanks(" ", b + (" " + (c + tail)));
    TokensOfText(a, " " + (b + (" " + (c + tail))));
  }

  lemma {:induction false} PlainIsClosed(quote: char, body: string)
    requires forall k | 0 <= k < |body| :: body[k] != quote && body[k] != '\\' && body[k] != '\r'
    ensures Closed(quote, body)
  {
    if body != "" {
      PlainIsClosed(quote, body[1..]);
    }
  }

  /** A name, an opening bracket, a literal and a closing bracket. */
  lemma ArgumentPasses(l: StringLiteral)
    requires ValidLiteral(l)
    ensures var text := "f(" + (PrintLiteral(l) + ")"); Filter(Echo, text) == text
  {
    FilterOfLiteral(l, ")");
    FilterOfPlain("f(", PrintLiteral(l) + ")");
    FilterOfCons(Echo, ')', "");
    assert [')'] + "" == ")";
  }

  lemma ArgumentSplits(before: string, quote: string, body: string, blank: string, word: string, tail: string)
    requires body == blank + (word + tail)
    ensures before + ((quote + (body + quote)) + ")")
         == (before + quote) + (blank + (word + (tail + (quote + ")"))))
  {
    Associative(quote, body + quote, ")");
    Associative(body, quote, ")");
    Associative(before, quote, body + (quote + ")"));
    Associative(blank, word + tail, quote + ")");
    Associative(word, tail, quote + ")");
  }

  /** A string that does not begin its token is cut at its blanks, and an import in it is read. */
  lemma StringArgumentIsRead(name: string)
    requires PlainName(name) && '\\' !in name
    ensures var text := "f(" + (PrintLiteral(StringLiteral('"', " import " + (name + ";"))) + ")");
      ImportNames(text) == [name]
  {
    var l, open, behind := StringLiteral('"', " import " + (name + ";")), "f(\"", ";\")";
    PlainIsClosed('"', l.body);
    ArgumentPasses(l);
    ArgumentTokens(name, behind);
    assert " import " + (name + ";") == " " + ("import" + (" " + (name + ";")));
    ArgumentSplits("f(", "\"", l.body, " ", "import", " " + (name + ";"));
    Associative(" ", name + ";", "\")");
    Associative(name, ";", "\")");
    assert "f(" + "\"" == open && ";" + "\")" == behind && "\"" + ")" == "\")";
  }

  lemma ArgumentTokens(name: string, behind: string)
    requires PlainName(name) && behind == ";\")"
    ensures Names(Imp, Tokens("f(\"" + (" " + ("import" + (" " + (name + behind)))))) == [name]
  {
    TokensOfThree("f(\"", "import", name, behind);
    NamesOfOther("f(\"", ["import"] + ([name] + Tokens(behind)));
    NamesOfImport(name, Tokens(behind));
    TokensOfOpenLiteral('"', ")");
    assert behind[1..] == ['"'] + ")";
    assert Tokens(behind) == [";"] + Tokens(behind[1..]);
  }
}
