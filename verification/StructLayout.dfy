/**
 The struct declarations that `finish_struct_ex` prints (runtime/compiler/gdc/config/makestruct.h:77-126), and
 the packed layout a reader of the declaration gets.
 */
module StructLayout {
  import opened Options
  import Sequences

  /** Offsets and sizes stay in the range where `fi_compare` does not wrap. */
  const LIMIT := 0x8000_0000

  datatype Field = Field(name: string, size: nat, offset: nat) {
    function End(): nat {
      offset + size
    }
  }

  /** A line of the declaration's body. */
  datatype Item = Pad(bytes: nat) | OpenUnion | CloseUnion | Member(field: Field)

  /** The fields as `qsort` leaves them; fields of one offset are in no particular order. */
  predicate Sorted(f: seq<Field>) {
    && (forall i, j | 0 <= i < j < |f| :: f[i].offset <= f[j].offset)
    && (forall i | 0 <= i < |f| :: f[i].End() < LIMIT)
  }

  // ---------------------------------------------------------------- what is printed

  /** Fields `i - 1` and `i` share their offset. */
  predicate Shares(f: seq<Field>, i: nat) {
    0 < i < |f| && f[i - 1].offset == f[i].offset
  }

  /** `in_union`, before field `i`: the field before it is one of several at its offset. */
  predicate InUnion(f: seq<Field>, i: nat) {
    i > 0 && (Shares(f, i - 1) || Shares(f, i))
  }

  /** `next_offset`, before field `i`. */
  function NextOffset(f: seq<Field>, i: nat): nat
    requires i <= |f|
  {
    if i == 0 then 0 else f[i - 1].End()
  }

  function OnlyIf(b: bool, item: Item, rest: seq<Item>): seq<Item> {
    if b then [item] + rest else rest
  }

  function PadTo(offset: nat, next: nat, rest: seq<Item>): seq<Item> {
    if offset > next then [Pad(offset - next)] + rest else rest
  }

  /** The lines printed from field `i` on. */
  function Printed(f: seq<Field>, i: nat, size: nat): seq<Item>
    requires i <= |f|
    decreases |f| - i
  {
    var next := NextOffset(f, i);
    if i == |f| then PadTo(size, next, [])
    else
      OnlyIf(InUnion(f, i) && !Shares(f, i), CloseUnion,
             PadTo(f[i].offset, next,
                   OnlyIf(!Shares(f, i) && Shares(f, i + 1), OpenUnion,
                          [Member(f[i])] + Printed(f, i + 1, size))))
  }

  method PrintPad(out: seq<Item>, offset: nat, next: nat, ghost rest: seq<Item>) returns (r: seq<Item>)
    ensures r + rest == out + PadTo(offset, next, rest)
  {
    r := out;
    if offset > next {
      r := r + [Pad(offset - next)];
      Sequences.Associative(out, [Pad(offset - next)], rest);
    }
  }

  method PrintIf(out: seq<Item>, b: bool, item: Item, ghost rest: seq<Item>) returns (r: seq<Item>)
    ensures r + rest == out + OnlyIf(b, item, rest)
  {
    r := out;
    if b {
      r := r + [item];
      Sequences.Associative(out, [item], rest);
    }
  }

  /** `finish_struct_ex`, from the sort on, without the name, the extra text and the assertions. */
  method FinishStruct(f: seq<Field>, size: nat) returns (out: seq<Item>)
    requires Sorted(f)
    ensures out == Printed(f, 0, size)
  {
    out := [];
    var lastOffset, nextOffset, inUnion := 0xFFFF_FFFF, 0, false;
    var i := 0;
    while i != |f|
      invariant i <= |f|
      invariant inUnion == InUnion(f, i) && nextOffset == NextOffset(f, i)
      invariant i < |f| ==> (f[i].offset == lastOffset <==> Shares(f, i))
      invariant out + Printed(f, i, size) == Printed(f, 0, size)
      decreases |f| - i
    {
      ghost var member := [Member(f[i])] + Printed(f, i + 1, size);
      ghost var entered := OnlyIf(!Shares(f, i) && Shares(f, i + 1), OpenUnion, member);
      var closing := f[i].offset != lastOffset && inUnion;
      out := PrintIf(out, closing, CloseUnion, PadTo(f[i].offset, nextOffset, entered));
      inUnion := inUnion && !closing;
      out := PrintPad(out, f[i].offset, nextOffset, entered);
      var opening := !inUnion && i + 1 != |f| && f[i].offset == f[i + 1].offset;
      out := PrintIf(out, opening, OpenUnion, member);
      inUnion := inUnion || opening;
      Sequences.Associative(out, [Member(f[i])], Printed(f, i + 1, size));
      out := out + [Member(f[i])];
      lastOffset := f[i].offset;
      nextOffset := lastOffset + f[i].size;
      i := i + 1;
    }
    out := PrintPad(out, size, nextOffset, []);
  }

  // ---------------------------------------------------------------- what a reader sees

  /** Where the members lie, and the size of the whole, unless the braces do not balance. */
  datatype Layout = Layout(offsets: seq<nat>, size: Option<nat>)

  /** A packed reading of the lines from offset `pos`; inside a union, `union` is its size so far. */
  function Read(items: seq<Item>, pos: nat, union: Option<nat>): Layout {
    if items == [] then Layout([], if union.None? then Some(pos) else None)
    else
      match items[0]
      case OpenUnion => if union.None? then Read(items[1..], pos, Some(0)) else Layout([], None)
      case CloseUnion => if union.Some? then Read(items[1..], pos + union.value, None) else Layout([], None)
      case Pad(n) =>
        if union.None? then Read(items[1..], pos + n, None) else Read(items[1..], pos, Some(Max(union.value, n)))
      case Member(x) =>
        var rest := if union.None? then Read(items[1..], pos + x.size, None)
                    else Read(items[1..], pos, Some(Max(union.value, x.size)));
        Layout([pos] + rest.offsets, rest.size)
  }

  function Max(a: nat, b: nat): nat {
    if a < b then b else a
  }

  function Offsets(f: seq<Field>, i: nat): (r: seq<nat>)
    requires i <= |f|
    ensures |r| == |f| - i
    decreases |f| - i
  {
    if i == |f| then [] else [f[i].offset] + Offsets(f, i + 1)
  }

  /** The declaration says what was asked for. */
  predicate Faithful(f: seq<Field>, size: nat) {
    Read(Printed(f, 0, size), 0, None) == Layout(Offsets(f, 0), Some(size))
  }

  // ---------------------------------------------------------------- what is printed, field by field

  /** A printed field: the padding in front of it, and whether it stands inside a union. */
  datatype Line = Line(pad: nat, inside: bool, field: Field)

  /** The lines, the padding behind them, and whether a union is left open. */
  datatype Body = Body(lines: seq<Line>, pad: nat, open: bool)

  /**
   The items as lines, where `pad` was printed since the last field; `None` if braces do not match, a union is
   opened or closed twice, or padding stands inside a union that goes on, twice in a row, or for no bytes.
   */
  function Lines(items: seq<Item>, pad: nat, inside: bool): Option<Body> {
    if items == [] then Some(Body([], pad, inside))
    else
      match items[0]
      case OpenUnion => if inside then None else Lines(items[1..], pad, true)
      case CloseUnion => if !inside || pad != 0 then None else Lines(items[1..], 0, false)
      case Pad(n) =>
        if pad != 0 || n == 0 || (inside && |items| > 1) then None else Lines(items[1..], n, inside)
      case Member(x) =>
        var rest := Lines(items[1..], 0, inside);
        if rest.None? then None else Some(rest.value.(lines := [Line(pad, inside, x)] + rest.value.lines))
  }

  /** Field `k` shares its offset with a neighbour. */
  predicate HasSharer(f: seq<Field>, k: nat) {
    k < |f| && ((k > 0 && f[k - 1].offset == f[k].offset) || (k + 1 < |f| && f[k].offset == f[k + 1].offset))
  }

  /** The bytes from the end of the field before `k`, if any are left, to `offset`. */
  function Missing(f: seq<Field>, k: nat, offset: nat): nat
    requires k <= |f|
  {
    var next := if k == 0 then 0 else f[k - 1].offset + f[k - 1].size;
    if offset > next then offset - next else 0
  }

  predicate IsLine(line: Line, f: seq<Field>, k: nat) {
    k < |f| && line == Line(Missing(f, k, f[k].offset), HasSharer(f, k), f[k])
  }

  /** The fields from `i` on are the given lines. */
  predicate AreLines(f: seq<Field>, i: nat, lines: seq<Line>) {
    i + |lines| == |f| && forall m | 0 <= m < |lines| :: IsLine(lines[m], f, i + m)
  }

  lemma LinesOfPad(offset: nat, next: nat, rest: seq<Item>)
    ensures Lines(PadTo(offset, next, rest), 0, false) == Lines(rest, Gap(offset, next), false)
  {
    if offset > next {
      assert ([Pad(offset - next)] + rest)[1..] == rest;
    }
  }

  lemma LinesOfMember(x: Field, rest: seq<Item>, pad: nat, inside: bool, body: Body)
    requires Lines(rest, 0, inside) == Some(body)
    ensures Lines([Member(x)] + rest, pad, inside) == Some(body.(lines := [Line(pad, inside, x)] + body.lines))
  {
    assert ([Member(x)] + rest)[1..] == rest;
  }

  lemma LinesOfBrace(b: bool, item: Item, rest: seq<Item>, pad: nat, inside: bool)
    requires item.OpenUnion? || item.CloseUnion?
    requires b ==> inside == item.CloseUnion? && (item.CloseUnion? ==> pad == 0)
    ensures Lines(OnlyIf(b, item, rest), pad, inside) == Lines(rest, pad, if b then !inside else inside)
  {
    if b {
      assert ([item] + rest)[1..] == rest;
    }
  }

  /**
   For any fields: the members are the fields in order, each behind the bytes missing up to its offset, and inside a
   union exactly if it shares its offset with a neighbour; the bytes missing at the end come last.
   */
  lemma {:induction false} PrintedAreLines(f: seq<Field>, i: nat, size: nat) returns (body: Body)
    requires i <= |f|
    ensures Lines(Printed(f, i, size), 0, InUnion(f, i)) == Some(body) && AreLines(f, i, body.lines)
    ensures body.pad == Missing(f, |f|, size) && body.open == InUnion(f, |f|)
    decreases |f| - i
  {
    if i == |f| {
      body := Body([], Missing(f, |f|, size), InUnion(f, i));
      LinesAtEnd(f, size);
    } else {
      var later := PrintedAreLines(f, i + 1, size);
      body := later.(lines := [Line(Missing(f, i, f[i].offset), HasSharer(f, i), f[i])] + later.lines);
      PrintedStep(f, i, size, later, body);
    }
  }

  lemma PrintedStep(f: seq<Field>, i: nat, size: nat, later: Body, body: Body)
    requires i < |f| && AreLines(f, i + 1, later.lines)
    requires Lines(Printed(f, i + 1, size), 0, InUnion(f, i + 1)) == Some(later)
    requires body == later.(lines := [Line(Missing(f, i, f[i].offset), HasSharer(f, i), f[i])] + later.lines)
    ensures Lines(Printed(f, i, size), 0, InUnion(f, i)) == Some(body) && AreLines(f, i, body.lines)
  {
    OneMoreField(f, i, Printed(f, i + 1, size), later, body, Missing(f, i, f[i].offset), HasSharer(f, i));
    LinesOfField(f, i, size, Missing(f, i, f[i].offset));
  }

  lemma OneMoreField(f: seq<Field>, i: nat, next: seq<Item>, later: Body, body: Body, pad: nat, inside: bool)
    requires i < |f| && pad == Missing(f, i, f[i].offset) && inside == HasSharer(f, i)
    requires Lines(next, 0, InUnion(f, i + 1)) == Some(later) && AreLines(f, i + 1, later.lines)
    requires body == later.(lines := [Line(pad, inside, f[i])] + later.lines)
    ensures Lines([Member(f[i])] + next, pad, inside) == Some(body) && AreLines(f, i, body.lines)
  {
    SharerIsInUnion(f, i);
    LinesOfMember(f[i], next, pad, inside, later);
    OneMoreLine(f, i, later.lines, body.lines);
  }

  lemma LinesAtEnd(f: seq<Field>, size: nat)
    ensures Lines(Printed(f, |f|, size), 0, InUnion(f, |f|)) == Some(Body([], Missing(f, |f|, size), InUnion(f, |f|)))
  {
    var pad := PadTo(size, NextOffset(f, |f|), []);
    assert pad == [] || pad[1..] == [];
  }

  lemma SharerIsInUnion(f: seq<Field>, i: nat)
    requires i < |f|
    ensures InUnion(f, i + 1) == HasSharer(f, i)
  {
  }

  lemma OneMoreLine(f: seq<Field>, i: nat, later: seq<Line>, lines: seq<Line>)
    requires i < |f| && AreLines(f, i + 1, later) && lines != [] && lines[1..] == later && IsLine(lines[0], f, i)
    ensures AreLines(f, i, lines)
  {
    forall m | 0 <= m < |lines| ensures IsLine(lines[m], f, i + m) {
      if m > 0 {
        var n := m - 1;
        assert lines[m] == later[n] && IsLine(later[n], f, i + 1 + n);
      }
    }
  }

  lemma LinesOfField(f: seq<Field>, i: nat, size: nat, pad: nat)
    requires i < |f| && pad == Missing(f, i, f[i].offset)
    ensures Lines(Printed(f, i, size), 0, InUnion(f, i))
         == Lines([Member(f[i])] + Printed(f, i + 1, size), pad, HasSharer(f, i))
  {
    var member := [Member(f[i])] + Printed(f, i + 1, size);
    if !Shares(f, i) {
      LinesOfNewOffset(f, i, size, pad, member);
    }
  }

  lemma LinesOfNewOffset(f: seq<Field>, i: nat, size: nat, pad: nat, member: seq<Item>)
    requires i < |f| && !Shares(f, i) && pad == Missing(f, i, f[i].offset)
    requires member == [Member(f[i])] + Printed(f, i + 1, size)
    ensures Lines(Printed(f, i, size), 0, InUnion(f, i)) == Lines(member, pad, Shares(f, i + 1))
  {
    var entered := OnlyIf(Shares(f, i + 1), OpenUnion, member);
    var padded := PadTo(f[i].offset, NextOffset(f, i), entered);
    assert Printed(f, i, size) == OnlyIf(InUnion(f, i), CloseUnion, padded);
    LinesOfBrace(InUnion(f, i), CloseUnion, padded, 0, InUnion(f, i));
    LinesOfPad(f[i].offset, NextOffset(f, i), entered);
    LinesOfBrace(Shares(f, i + 1), OpenUnion, member, pad, false);
  }

  // ---------------------------------------------------------------- when it does

  /** The largest size so far at the offset of field `i - 1`. */
  function LargestSharing(f: seq<Field>, i: nat): nat
    requires 0 < i <= |f|
  {
    if Shares(f, i - 1) then Max(LargestSharing(f, i - 1), f[i - 1].size) else f[i - 1].size
  }

  /** If field `i` has a new offset, it lies behind the field before it, which is as large as any it shares with. */
  predicate FitsAt(f: seq<Field>, i: nat)
    requires i < |f|
  {
    i > 0 && !Shares(f, i) ==> LargestSharing(f, i) == f[i - 1].size && f[i - 1].End() <= f[i].offset
  }

  predicate FitsFrom(f: seq<Field>, i: nat, size: nat)
    requires i <= |f|
  {
    && (forall k | i <= k < |f| :: FitsAt(f, k))
    && !InUnion(f, |f|)
    && NextOffset(f, |f|) <= size
  }

  /** Where the reader is before field `i`, if all went well. */
  function Position(f: seq<Field>, i: nat): nat
    requires i <= |f|
  {
    if InUnion(f, i) then f[i - 1].offset else NextOffset(f, i)
  }

  function UnionSize(f: seq<Field>, i: nat): Option<nat>
    requires i <= |f|
  {
    if InUnion(f, i) then Some(LargestSharing(f, i)) else None
  }

  lemma ReadPad(offset: nat, next: nat, rest: seq<Item>, pos: nat)
    ensures Read(PadTo(offset, next, rest), pos, None) == Read(rest, pos + Gap(offset, next), None)
  {
  }

  function Gap(offset: nat, next: nat): nat {
    if offset > next then offset - next else 0
  }

  /** Where a field with a new offset lands: behind all of what went before, and the gap the printer saw. */
  function Landing(f: seq<Field>, i: nat): nat
    requires i < |f|
  {
    if i == 0 then f[i].offset
    else f[i - 1].offset + LargestSharing(f, i) + Gap(f[i].offset, f[i - 1].End())
  }

  /** The lines of a field with a new offset, behind a closing brace. */
  function PrintedNew(f: seq<Field>, i: nat, size: nat): seq<Item>
    requires i < |f|
  {
    PadTo(f[i].offset, NextOffset(f, i), OnlyIf(Shares(f, i + 1), OpenUnion, [Member(f[i])] + Printed(f, i + 1, size)))
  }

  lemma ReadToMember(offset: nat, next: nat, b: bool, member: seq<Item>, pos: nat)
    ensures Read(PadTo(offset, next, OnlyIf(b, OpenUnion, member)), pos, None) ==
      Read(member, pos + Gap(offset, next), if b then Some(0) else None)
  {
  }

  /** A field with a new offset, read up to the field itself. */
  lemma ReadNewOffset(f: seq<Field>, i: nat, size: nat)
    requires i < |f| && !Shares(f, i)
    ensures var member := [Member(f[i])] + Printed(f, i + 1, size);
      Read(Printed(f, i, size), Position(f, i), UnionSize(f, i)) ==
      Read(member, Landing(f, i), if Shares(f, i + 1) then Some(0) else None)
  {
    assert Printed(f, i, size) == OnlyIf(InUnion(f, i), CloseUnion, PrintedNew(f, i, size));
    var member := [Member(f[i])] + Printed(f, i + 1, size);
    if InUnion(f, i) {
      ReadToMember(f[i].offset, NextOffset(f, i), Shares(f, i + 1), member, f[i - 1].offset + LargestSharing(f, i));
    } else {
      ReadToMember(f[i].offset, NextOffset(f, i), Shares(f, i + 1), member, NextOffset(f, i));
    }
  }

  /** What `ReadField` says of a reading `r` from field `i` and a reading `rest` from the next. */
  predicate LandsRight(f: seq<Field>, i: nat, r: Layout, rest: Layout)
    requires i < |f|
  {
    if FitsAt(f, i) then r == Layout([f[i].offset] + rest.offsets, rest.size)
    else r.offsets != [] && r.offsets[0] != f[i].offset
  }

  function ReadFrom(f: seq<Field>, i: nat, size: nat): Layout
    requires i <= |f|
  {
    Read(Printed(f, i, size), Position(f, i), UnionSize(f, i))
  }

  /** A field lands on its offset exactly if it fits, and the reader is then in place for the next. */
  lemma ReadField(f: seq<Field>, i: nat, size: nat)
    requires i < |f|
    ensures LandsRight(f, i, ReadFrom(f, i, size), ReadFrom(f, i + 1, size))
  {
    if !Shares(f, i) {
      ReadNewOffset(f, i, size);
    }
  }

  predicate ReadsRight(f: seq<Field>, i: nat, size: nat, r: Layout)
    requires i <= |f|
  {
    r == Layout(Offsets(f, i), Some(size))
  }

  lemma ReadIffFitsNext(f: seq<Field>, i: nat, size: nat)
    requires i < |f| && (ReadsRight(f, i + 1, size, ReadFrom(f, i + 1, size)) <==> FitsFrom(f, i + 1, size))
    ensures ReadsRight(f, i, size, ReadFrom(f, i, size)) <==> FitsFrom(f, i, size)
  {
    ReadField(f, i, size);
    SameLayoutIffSameRest(ReadFrom(f, i, size), ReadFrom(f, i + 1, size), f, i, size);
  }

  /** From field `i` on, the reading is right exactly if everything fits. */
  lemma {:induction false} ReadIffFits(f: seq<Field>, i: nat, size: nat)
    requires i <= |f|
    ensures ReadsRight(f, i, size, ReadFrom(f, i, size)) <==> FitsFrom(f, i, size)
    decreases |f| - i
  {
    if i < |f| {
      ReadIffFits(f, i + 1, size);
      ReadIffFitsNext(f, i, size);
    } else {
      ReadIffFitsAtEnd(f, size);
    }
  }

  lemma ReadIffFitsAtEnd(f: seq<Field>, size: nat)
    ensures ReadsRight(f, |f|, size, ReadFrom(f, |f|, size)) <==> FitsFrom(f, |f|, size)
  {
    ReadEnd(f, size);
  }

  /** A union that ends the struct stays open. */
  lemma ReadEnd(f: seq<Field>, size: nat)
    ensures ReadFrom(f, |f|, size) == Layout([], if InUnion(f, |f|) then None else Some(Max(NextOffset(f, |f|), size)))
  {
    var next := NextOffset(f, |f|);
    if !InUnion(f, |f|) {
      ReadPad(size, next, [], next);
    } else if size > next {
      assert Printed(f, |f|, size) == [Pad(size - next)] + [];
      var union := Some(Max(LargestSharing(f, |f|), size - next));
      assert Read([], Position(f, |f|), union) == Layout([], None);
    }
  }

  lemma SameLayoutIffSameRest(r: Layout, rest: Layout, f: seq<Field>, i: nat, size: nat)
    requires i < |f|
    requires LandsRight(f, i, r, rest)
    ensures ReadsRight(f, i, size, r) <==> FitsAt(f, i) && ReadsRight(f, i + 1, size, rest)
  {
    ReadOffsets(f[i].offset, rest.offsets);
    ReadOffsets(f[i].offset, Offsets(f, i + 1));
  }

  lemma ReadOffsets(o: nat, rest: seq<nat>)
    ensures ([o] + rest)[0] == o && ([o] + rest)[1..] == rest
  {
  }

  /**
   The declaration is faithful if and only if the last two fields do not share their offset, each union's last
   field is as large as any in it, nothing overlaps what went before, and the fields end within the struct.
   */
  lemma FaithfulIffFits(f: seq<Field>, size: nat)
    ensures Faithful(f, size) <==> FitsFrom(f, 0, size)
  {
    ReadIffFits(f, 0, size);
  }

  // ---------------------------------------------------------------- whatever the sort does

  /** `g` is the same fields, sorted as `qsort` may leave them too. */
  ghost predicate AnotherOrder(f: seq<Field>, g: seq<Field>) {
    Sorted(g) && multiset(g) == multiset(f)
  }

  /** Two members of the collection have this offset. */
  predicate InSomeUnion(fields: multiset<Field>, x: Field, y: Field) {
    x in fields && y in fields && x.offset == y.offset && (x != y || fields[x] >= 2)
  }

  /** Unions have members of one size and do not end the struct; other fields lie apart, all within `size`. */
  ghost predicate Plain(fields: multiset<Field>, size: nat) {
    && (forall x | x in fields :: x.End() <= size)
    && (forall x, y | x in fields && y in fields && x.offset < y.offset :: x.End() <= y.offset)
    && (forall x, y | InSomeUnion(fields, x, y) :: x.size == y.size && HasFieldBehind(fields, x))
  }

  ghost predicate HasFieldBehind(fields: multiset<Field>, x: Field) {
    exists z :: z in fields && z.offset > x.offset
  }

  lemma UnionOfTwo(f: seq<Field>, i: nat, j: nat)
    requires i < j < |f| && f[i].offset == f[j].offset
    ensures InSomeUnion(multiset(f), f[i], f[j])
  {
    assert f == f[..i] + [f[i]] + f[i + 1..j] + [f[j]] + f[j + 1..];
  }

  lemma {:induction false} LargestIsLargest(f: seq<Field>, k: nat, j: nat)
    requires Sorted(f) && j < k <= |f| && f[j].offset == f[k - 1].offset
    ensures f[j].size <= LargestSharing(f, k)
    decreases k
  {
    if j < k - 1 {
      LargestIsLargest(f, k - 1, j);
    }
  }

  /** The largest size in a union of equal sizes is anybody's. */
  lemma {:induction false} EqualSizesAreLargest(f: seq<Field>, k: nat)
    requires 0 < k <= |f|
    requires forall i, j | 0 <= i < j < |f| && f[i].offset == f[j].offset :: f[i].size == f[j].size
    ensures LargestSharing(f, k) == f[k - 1].size
  {
    if Shares(f, k - 1) {
      EqualSizesAreLargest(f, k - 1);
    }
  }

  lemma BehindMeansNotLast(f: seq<Field>, x: Field)
    requires Sorted(f) && HasFieldBehind(multiset(f), x)
    ensures f != [] && f[|f| - 1].offset > x.offset
  {
    var z :| z in multiset(f) && z.offset > x.offset;
    var k: nat :| k < |f| && f[k] == z;
  }

  lemma PlainUnions(f: seq<Field>, size: nat, i: nat, j: nat)
    requires Sorted(f) && Plain(multiset(f), size) && i < j < |f| && f[i].offset == f[j].offset
    ensures f[i].size == f[j].size && j != |f| - 1
  {
    UnionOfTwo(f, i, j);
    BehindMeansNotLast(f, f[i]);
  }

  lemma PlainFits(f: seq<Field>, size: nat)
    requires Sorted(f) && Plain(multiset(f), size)
    ensures FitsFrom(f, 0, size)
  {
    forall i, j | 0 <= i < j < |f| && f[i].offset == f[j].offset
      ensures f[i].size == f[j].size && j != |f| - 1
    {
      PlainUnions(f, size, i, j);
    }
    forall k | 0 <= k < |f| ensures FitsAt(f, k) {
      if k > 0 && !Shares(f, k) {
        EqualSizesAreLargest(f, k);
        assert f[k - 1] in multiset(f) && f[k] in multiset(f);
      }
    }
    if f != [] {
      assert f[|f| - 1] in multiset(f);
    }
  }

  ghost predicate FitsAlways(f: seq<Field>, size: nat) {
    forall g | AnotherOrder(f, g) :: FitsFrom(g, 0, size)
  }

  lemma Swapped(f: seq<Field>, i: nat, e: nat) returns (g: seq<Field>)
    requires Sorted(f) && i < e < |f| && f[i].offset == f[e].offset
    ensures AnotherOrder(f, g) && |g| == |f| && g[i] == f[e] && g[e] == f[i]
    ensures forall k | 0 <= k < |f| && k != i && k != e :: g[k] == f[k]
  {
    g := f[i := f[e]][e := f[i]];
  }

  /** The last field of a union that does not end the struct may change places with any other member. */
  lemma MembersAreAlike(f: seq<Field>, size: nat, i: nat, e: nat)
    requires Sorted(f) && FitsAlways(f, size)
    requires i < e < |f| - 1 && f[i].offset == f[e].offset < f[e + 1].offset
    ensures f[i].size == f[e].size
  {
    var g := Swapped(f, i, e);
    assert AnotherOrder(f, f);
    LastIsLargest(f, size, i, e);
    LastIsLargest(g, size, i, e);
  }

  lemma LastIsLargest(f: seq<Field>, size: nat, i: nat, e: nat)
    requires Sorted(f) && FitsFrom(f, 0, size)
    requires i < e < |f| - 1 && f[i].offset == f[e].offset < f[e + 1].offset
    ensures f[i].size <= f[e].size
  {
    assert FitsAt(f, e + 1);
    LargestIsLargest(f, e + 1, i);
  }

  /** The last field at the offset of field `i`. */
  lemma {:induction false} LastSharing(f: seq<Field>, i: nat) returns (e: nat)
    requires Sorted(f) && i < |f|
    ensures i <= e < |f| && f[e].offset == f[i].offset
    ensures forall k | e < k < |f| :: f[k].offset > f[i].offset
    decreases |f| - i
  {
    if i + 1 < |f| && f[i + 1].offset == f[i].offset {
      e := LastSharing(f, i + 1);
    } else {
      e := i;
    }
  }

  /** A union has a field behind it, and its members are all of the size of the last. */
  lemma UnionIsPlain(f: seq<Field>, size: nat, i: nat) returns (e: nat)
    requires Sorted(f) && FitsAlways(f, size)
    requires i < |f| && (Shares(f, i) || Shares(f, i + 1))
    ensures i <= e < |f| - 1 && f[e + 1].offset > f[i].offset == f[e].offset && f[i].size == f[e].size
    ensures forall k | e < k < |f| :: f[k].offset > f[i].offset
  {
    e := LastSharing(f, i);
    assert AnotherOrder(f, f);
    if i < e {
      MembersAreAlike(f, size, i, e);
    }
  }

  lemma UnionsArePlain(f: seq<Field>, size: nat, i: nat, j: nat)
    requires Sorted(f) && FitsAlways(f, size)
    requires i < j < |f| && f[i].offset == f[j].offset
    ensures f[i].size == f[j].size && HasFieldBehind(multiset(f), f[i])
  {
    var e := UnionIsPlain(f, size, i);
    var d := UnionIsPlain(f, size, j);
    assert f[e + 1] in multiset(f);
  }

  lemma {:induction false} TwoPlaces(f: seq<Field>, x: Field, y: Field) returns (i: nat, j: nat)
    requires InSomeUnion(multiset(f), x, y)
    ensures i < j < |f| && ((f[i] == x && f[j] == y) || (f[i] == y && f[j] == x))
  {
    assert x in f && y in f;
    i :| i < |f| && f[i] == x;
    if x != y {
      j :| j < |f| && f[j] == y;
    } else {
      assert f == f[..i] + [x] + f[i + 1..];
      assert x in f[..i] + f[i + 1..];
      j :| j < |f| && j != i && f[j] == x;
    }
    if j < i {
      i, j := j, i;
    }
  }

  /** A field ends before the next offset. */
  lemma {:induction false} EndsBefore(f: seq<Field>, size: nat, i: nat, j: nat)
    requires Sorted(f) && FitsAlways(f, size)
    requires i < |f| && (j == |f| || (j < |f| && f[i].offset < f[j].offset))
    ensures f[i].End() <= if j == |f| then size else f[j].offset
  {
    assert AnotherOrder(f, f);
    if Shares(f, i) || Shares(f, i + 1) {
      var e := UnionIsPlain(f, size, i);
      assert FitsAt(f, e + 1);
      if j == |f| {
        assert f[e + 1].offset <= f[|f| - 1].End();
      } else {
        assert j > e;
      }
    } else if i + 1 < |f| {
      assert FitsAt(f, i + 1);
    }
  }

  lemma AlwaysIsPlain(f: seq<Field>, size: nat)
    requires Sorted(f) && FitsAlways(f, size)
    ensures Plain(multiset(f), size)
  {
    forall x | x in multiset(f) ensures x.End() <= size {
      var i: nat :| i < |f| && f[i] == x;
      EndsBefore(f, size, i, |f|);
    }
    forall x, y | x in multiset(f) && y in multiset(f) && x.offset < y.offset ensures x.End() <= y.offset {
      var i: nat :| i < |f| && f[i] == x;
      var j: nat :| j < |f| && f[j] == y;
      EndsBefore(f, size, i, j);
    }
    forall x, y | InSomeUnion(multiset(f), x, y) ensures x.size == y.size && HasFieldBehind(multiset(f), x) {
      var i, j := TwoPlaces(f, x, y);
      UnionsArePlain(f, size, i, j);
    }
  }

  lemma PlainIffFitsAlways(f: seq<Field>, size: nat)
    requires Sorted(f)
    ensures FitsAlways(f, size) <==> Plain(multiset(f), size)
  {
    if Plain(multiset(f), size) {
      forall g | AnotherOrder(f, g) ensures FitsFrom(g, 0, size) {
        PlainFits(g, size);
      }
    }
    if FitsAlways(f, size) {
      AlwaysIsPlain(f, size);
    }
  }

  /**
   The declaration is faithful in whatever order `qsort` leaves the fields of one offset if and only if the
   layout is plain, which a caller can tell from the fields alone.
   */
  lemma FaithfulInEveryOrder(f: seq<Field>, size: nat)
    requires Sorted(f)
    ensures (forall g | AnotherOrder(f, g) :: Faithful(g, size)) <==> Plain(multiset(f), size)
  {
    forall g | AnotherOrder(f, g) ensures Faithful(g, size) <==> FitsFrom(g, 0, size) {
      FaithfulIffFits(g, size);
    }
    PlainIffFitsAlways(f, size);
  }

  /** A union at the end of the struct is left open. */
  lemma EndingUnionIsUnfaithful()
    ensures !Faithful([Field("a", 4, 0), Field("b", 4, 0)], 4)
  {
    FaithfulIffFits([Field("a", 4, 0), Field("b", 4, 0)], 4);
  }

  /** Behind a union whose last member is the smaller one, padding is printed that the union already covers. */
  lemma SmallerLastMemberIsUnfaithful()
    ensures !Faithful([Field("a", 4, 0), Field("b", 2, 0), Field("c", 4, 4)], 8)
  {
    var f := [Field("a", 4, 0), Field("b", 2, 0), Field("c", 4, 4)];
    FaithfulIffFits(f, 8);
    assert !FitsAt(f, 2);
  }
}
