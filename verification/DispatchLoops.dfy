/**
 The dispatch loops of runtime/compiler/dmd/deh.c as they run: frames whose `table_index` is assigned,
 and finally blocks called for their effect, which is recorded in `calls`.
 */
module DispatchLoops {
  import opened Options
  import opened Sequences
  import opened ExceptionDispatch

  /** `struct DEstablisherFrame` together with the handler table passed in EAX. */
  class EstablisherFrame {
    const bp: nat
    const table: seq<Handler>
    var tableIndex: int

    constructor (bp: nat, table: seq<Handler>, tableIndex: int)
      ensures this.bp == bp && this.table == table && this.tableIndex == tableIndex
    {
      this.bp, this.table, this.tableIndex := bp, table, tableIndex;
    }
  }

  function View(f: EstablisherFrame): Frame
    reads f
  {
    Frame(f.bp, f.table, f.tableIndex)
  }

  function Views(fs: seq<EstablisherFrame>): (r: seq<Frame>)
    reads fs
    ensures |r| == |fs|
    ensures forall k | 0 <= k < |fs| :: r[k] == View(fs[k])
  {
    if fs == [] then [] else [View(fs[0])] + Views(fs[1..])
  }

  ghost predicate DistinctObjects(fs: seq<EstablisherFrame>) {
    forall a, b | 0 <= a < b < |fs| :: fs[a] != fs[b]
  }

  /** `_d_isbaseof` over the catch blocks of one entry. */
  method ScanCatches(cbs: seq<CatchBlock>, c: Class, sub: Subclass) returns (found: Option<nat>)
    ensures found == FirstMatch(cbs, 0, c, sub)
  {
    var i := 0;
    while i < |cbs|
      invariant 0 <= i <= |cbs|
      invariant FirstMatch(cbs, 0, c, sub) == FirstMatch(cbs, i, c, sub)
    {
      if sub(c, cbs[i].ctype) {
        return Some(i);
      }
      i := i + 1;
    }
    return None;
  }

  /** The handler-chain loop of the search phase in `_d_framehandler`. */
  method SearchFrame(frame: EstablisherFrame, c: Class, sub: Subclass) returns (found: Option<(int, nat)>)
    requires ValidFrame(View(frame))
    ensures found == Search(frame.table, frame.tableIndex, c, sub)
  {
    var ndx := frame.tableIndex;
    while ndx != -1
      invariant -1 <= ndx < |frame.table|
      invariant Search(frame.table, frame.tableIndex, c, sub) == Search(frame.table, ndx, c, sub)
      decreases ndx
    {
      var phi := frame.table[ndx];
      var prevNdx := phi.prevIndex;
      if phi.catches.Some? {
        var block := ScanCatches(phi.catches.value, c, sub);
        if block.Some? {
          return Some((ndx, block.value));
        }
      }
      ndx := prevNdx;
    }
    return None;
  }

  class Windows {
    var calls: seq<Call>

    constructor ()
      ensures calls == []
    {
      calls := [];
    }

    /** `_d_local_unwind`. */
    method LocalUnwind(frame: EstablisherFrame, stopIndex: int)
      requires ValidFrame(View(frame))
      modifies this
      ensures calls == old(calls) + Unwind(frame.bp, frame.table, frame.tableIndex, stopIndex)
    {
      var i := frame.tableIndex;
      while i != -1 && i != stopIndex
        invariant -1 <= i < |frame.table|
        invariant calls + Unwind(frame.bp, frame.table, i, stopIndex)
               == old(calls) + Unwind(frame.bp, frame.table, frame.tableIndex, stopIndex)
        decreases i
      {
        var phi := frame.table[i];
        ghost var rest := Unwind(frame.bp, frame.table, phi.prevIndex, stopIndex);
        Associative(calls, FinallyOf(frame.bp, frame.table, i), rest);
        assert calls + [] == calls;
        if phi.finallyCode.Some? {
          calls := calls + [Call(frame.bp, i, phi.finallyCode.value)];
        }
        i := phi.prevIndex;
      }
    }

    /** `_global_unwind`: the unwind branch of `_d_framehandler` on every frame inside the catching one. */
    method GlobalUnwind(chain: seq<EstablisherFrame>, depth: nat)
      requires depth <= |chain| && ValidStack(Views(chain))
      modifies this
      ensures calls == old(calls) + UnwindAll(Views(chain)[..depth])
    {
      var fs := Views(chain);
      assert forall k | 0 <= k < |chain| :: View(chain[k]) == fs[k];
      ghost var inner := fs[..depth];
      var k := 0;
      while k < depth
        invariant 0 <= k <= depth
        invariant Views(chain) == fs
        invariant calls + UnwindAll(inner[k..]) == old(calls) + UnwindAll(inner)
      {
        ghost var before, f := calls, inner[k];
        assert f == View(chain[k]);
        LocalUnwind(chain[k], -1);
        Associative(before, Unwind(f.bp, f.table, f.start, -1), UnwindAll(inner[k + 1..]));
        k := k + 1;
      }
    }

    /** The tail of the search phase of `_d_framehandler`: unwind up to the catch, then leave its region. */
    method TakeCatch(chain: seq<EstablisherFrame>, depth: nat, ndx: int)
      requires depth < |chain| && 0 <= ndx < |chain[depth].table|
      requires ValidStack(Views(chain)) && DistinctObjects(chain)
      modifies this, chain[depth]
      ensures var f := old(View(chain[depth]));
        calls == old(calls) + (UnwindAll(old(Views(chain))[..depth]) + Unwind(f.bp, f.table, f.start, ndx))
      ensures Views(chain) == CatchTaken(old(Views(chain)), depth, ndx)
      ensures var f := old(View(chain[depth]));
        OnChain(f.table, f.start, ndx) ==> HandlerLeft(old(Views(chain)), Views(chain), depth, ndx)
    {
      ghost var fs := Views(chain);
      UnwindTo(chain, depth, ndx, fs);
      LeaveHandler(chain, depth, ndx, fs);
      if OnChain(fs[depth].table, fs[depth].start, ndx) {
        CatchLeavesHandler(fs, depth, ndx);
      }
    }

    method LeaveHandler(chain: seq<EstablisherFrame>, depth: nat, ndx: int, ghost fs: seq<Frame>)
      requires depth < |chain| && 0 <= ndx < |chain[depth].table|
      requires DistinctObjects(chain) && fs == Views(chain)
      modifies chain[depth]
      ensures Views(chain) == CatchTaken(fs, depth, ndx)
    {
      chain[depth].tableIndex := chain[depth].table[ndx].prevIndex;
      forall j | 0 <= j < |chain| ensures Views(chain)[j] == CatchTaken(fs, depth, ndx)[j] {
        assert fs[j] == old(View(chain[j]));
      }
    }

    method UnwindTo(chain: seq<EstablisherFrame>, depth: nat, ndx: int, ghost fs: seq<Frame>)
      requires depth < |chain| && ValidStack(fs) && fs == Views(chain)
      modifies this
      ensures var f := fs[depth];
        calls == old(calls) + (UnwindAll(fs[..depth]) + Unwind(f.bp, f.table, f.start, ndx))
    {
      ghost var before, f := calls, fs[depth];
      assert f == View(chain[depth]);
      GlobalUnwind(chain, depth);
      LocalUnwind(chain[depth], ndx);
      Associative(before, UnwindAll(fs[..depth]), Unwind(f.bp, f.table, f.start, ndx));
    }

    /** `RaiseException`: the handlers are asked innermost first; the first to accept takes control. */
    method Throw(chain: seq<EstablisherFrame>, c: Class, sub: Subclass) returns (target: Option<Target>)
      requires ValidStack(Views(chain)) && DistinctObjects(chain)
      modifies this, chain
      ensures target == TwoPhase(old(Views(chain)), c, sub).target
      ensures calls == old(calls) + TwoPhase(old(Views(chain)), c, sub).calls
      ensures var s := SearchStack(old(Views(chain)), c, sub);
        if s.None? then Views(chain) == old(Views(chain))
        else
          && Views(chain) == CatchTaken(old(Views(chain)), s.value.0, s.value.1)
          && HandlerLeft(old(Views(chain)), Views(chain), s.value.0, s.value.1)
    {
      var found := AskHandlers(chain, c, sub);
      if found.None? {
        return None;
      }
      var (depth, ndx, block) := found.value;
      ghost var fs := Views(chain);
      SearchStackFindsInnermost(fs, c, sub);
      assert fs[depth] == View(chain[depth]);
      TakeCatch(chain, depth, ndx);
      assert calls == old(calls) + TwoPhase(fs, c, sub).calls;
      target := Some(Target(chain[depth].bp, ndx, block));
    }
  }

  /** The search phase over the registered frames. */
  method AskHandlers(chain: seq<EstablisherFrame>, c: Class, sub: Subclass) returns (found: Option<(nat, int, nat)>)
    requires ValidStack(Views(chain))
    ensures found == SearchStack(Views(chain), c, sub)
  {
    ghost var fs := Views(chain);
    var k := 0;
    while k < |chain|
      invariant 0 <= k <= |chain|
      invariant SearchStack(fs, c, sub) == Deeper(k, SearchStack(fs[k..], c, sub))
    {
      assert fs[k] == View(chain[k]);
      var r := SearchFrame(chain[k], c, sub);
      if r.Some? {
        return Some((k, r.value.0, r.value.1));
      }
      k := k + 1;
    }
    return None;
  }

  /** A result found `k` frames further in. */
  function Deeper(k: nat, s: Option<(nat, int, nat)>): Option<(nat, int, nat)> {
    if s.None? then None else Some((s.value.0 + k, s.value.1, s.value.2))
  }

  // ---------------------------------------------------------------- POSIX

  /** A handler table as POSIX sees it: `offsets[i]` is where the region of handler `i` starts. */
  datatype PosixTable = PosixTable(fptr: nat, offsets: seq<nat>, handlers: seq<Handler>)

  datatype FuncTable = FuncTable(fptr: nat, size: nat, handlertable: PosixTable)

  /** A caller found by `__eh_find_caller`. */
  datatype Caller = Caller(bp: nat, retaddr: nat)

  predicate ValidPosixTable(t: PosixTable) {
    |t.offsets| == |t.handlers| && ValidTable(t.handlers)
  }

  predicate Covers(ft: FuncTable, address: nat) {
    ft.fptr <= address < ft.fptr + ft.size
  }

  ghost predicate IsFirstCovering(table: seq<FuncTable>, address: nat, k: nat) {
    k < |table| && Covers(table[k], address) && forall j | 0 <= j < k :: !Covers(table[j], address)
  }

  /** `__eh_finddata`. */
  method EhFindData(table: seq<FuncTable>, address: nat) returns (r: Option<PosixTable>)
    ensures r == FindData(table, address)
    ensures r.None? <==> forall k | 0 <= k < |table| :: !Covers(table[k], address)
    ensures r.Some? ==> exists k: nat :: IsFirstCovering(table, address, k) && table[k].handlertable == r.value
  {
    var k := 0;
    while k < |table|
      invariant 0 <= k <= |table|
      invariant forall j | 0 <= j < k :: !Covers(table[j], address)
      invariant FindData(table, address) == FindData(table[k..], address)
    {
      if Covers(table[k], address) {
        assert IsFirstCovering(table, address, k);
        return Some(table[k].handlertable);
      }
      assert table[k..][1..] == table[k + 1..];
      k := k + 1;
    }
    return None;
  }

  function FindData(table: seq<FuncTable>, address: nat): Option<PosixTable> {
    if table == [] then None
    else if Covers(table[0], address) then Some(table[0].handlertable)
    else FindData(table[1..], address)
  }

  /** The last of the first `n` handlers whose region starts at or before `retaddr`. */
  function StartIndex(t: PosixTable, retaddr: nat, n: nat): (r: int)
    requires n <= |t.offsets|
    ensures -1 <= r < n
    ensures r != -1 ==> retaddr >= t.fptr + t.offsets[r]
    ensures forall i | r < i < n :: retaddr < t.fptr + t.offsets[i]
  {
    if n == 0 then -1
    else if retaddr >= t.fptr + t.offsets[n - 1] then n - 1
    else StartIndex(t, retaddr, n - 1)
  }

  /** The frames of a call chain that have handler data, with the start index of each. */
  function PosixFrames(callers: seq<Caller>, table: seq<FuncTable>): (r: seq<Frame>)
    requires forall k | 0 <= k < |table| :: ValidPosixTable(table[k].handlertable)
    ensures ValidStack(r)
  {
    if callers == [] then []
    else
      var rest := PosixFrames(callers[1..], table);
      var data := FindData(table, callers[0].retaddr);
      if data.None? then rest
      else
        FindDataIsValid(table, callers[0].retaddr);
        var start := StartIndex(data.value, callers[0].retaddr, |data.value.offsets|);
        [Frame(callers[0].bp, data.value.handlers, start)] + rest
  }

  /** The frame of a caller in a function of the first table that covers its return address. */
  ghost predicate IsFrameOf(caller: Caller, table: seq<FuncTable>, f: Frame) {
    exists k: nat :: IsFirstCovering(table, caller.retaddr, k) && Shows(caller, table[k].handlertable, f)
  }

  /** The frame shows the table's handlers, from the last one whose region starts at or before the address. */
  predicate Shows(caller: Caller, t: PosixTable, f: Frame) {
    && f.bp == caller.bp && f.table == t.handlers && -1 <= f.start < |t.offsets|
    && (f.start != -1 ==> t.fptr + t.offsets[f.start] <= caller.retaddr)
    && forall i | f.start < i < |t.offsets| :: caller.retaddr < t.fptr + t.offsets[i]
  }

  /** Some table covers the address. */
  ghost predicate IsCovered(table: seq<FuncTable>, address: nat) {
    exists k | 0 <= k < |table| :: Covers(table[k], address)
  }

  ghost predicate Increasing(positions: seq<nat>, n: nat) {
    && (forall i | 0 <= i < |positions| :: positions[i] < n)
    && (forall a, b | 0 <= a < b < |positions| :: positions[a] < positions[b])
  }

  /** The frames are those of the callers at `positions`, in order, and no other caller's address is covered. */
  ghost predicate FramesAt(callers: seq<Caller>, table: seq<FuncTable>, positions: seq<nat>, fs: seq<Frame>) {
    && |positions| == |fs| && Increasing(positions, |callers|)
    && (forall p: nat | p < |callers| :: p in positions <==> IsCovered(table, callers[p].retaddr))
    && (forall i | 0 <= i < |fs| :: IsFrameOf(callers[positions[i]], table, fs[i]))
  }

  /**
   The frames are exactly those of the callers whose return address some table covers, innermost first; a caller
   in a function without handler data is passed over.
   */
  lemma {:induction false} PosixFramesAre(callers: seq<Caller>, table: seq<FuncTable>) returns (positions: seq<nat>)
    requires forall k | 0 <= k < |table| :: ValidPosixTable(table[k].handlertable)
    ensures FramesAt(callers, table, positions, PosixFrames(callers, table))
  {
    if callers == [] {
      positions := [];
    } else {
      var later := PosixFramesAre(callers[1..], table);
      var caller, rest := callers[0], PosixFrames(callers[1..], table);
      var k := FindDataIsFirst(table, caller.retaddr);
      if FindData(table, caller.retaddr).None? {
        positions := Shifted(later);
        SkippedCaller(callers, table, later, rest);
      } else {
        positions := [0] + Shifted(later);
        FindDataIsValid(table, caller.retaddr);
        var f := PosixFrames(callers, table)[0];
        assert Shows(caller, table[k].handlertable, f);
        FramedCaller(callers, table, later, f, rest, positions);
      }
    }
  }

  function Shifted(positions: seq<nat>): (r: seq<nat>)
    ensures |r| == |positions| && forall i | 0 <= i < |r| :: r[i] == positions[i] + 1
  {
    seq(|positions|, i requires 0 <= i < |positions| => positions[i] + 1)
  }

  lemma {:induction false} FindDataIsFirst(table: seq<FuncTable>, address: nat) returns (k: nat)
    ensures FindData(table, address).None? <==> forall j | 0 <= j < |table| :: !Covers(table[j], address)
    ensures FindData(table, address).Some? ==>
      IsFirstCovering(table, address, k) && table[k].handlertable == FindData(table, address).value
  {
    k := 0;
    if table != [] && !Covers(table[0], address) {
      var later := FindDataIsFirst(table[1..], address);
      k := later + 1;
      assert forall j | 0 < j < |table| :: table[j] == table[1..][j - 1];
    }
  }

  /** A caller whose address no table covers has no frame. */
  lemma SkippedCaller(callers: seq<Caller>, table: seq<FuncTable>, later: seq<nat>, fs: seq<Frame>)
    requires callers != [] && FramesAt(callers[1..], table, later, fs) && !IsCovered(table, callers[0].retaddr)
    ensures FramesAt(callers, table, Shifted(later), fs)
  {
    ShiftedMembers(later);
  }

  lemma FramedCaller(callers: seq<Caller>, table: seq<FuncTable>, later: seq<nat>, f: Frame, fs: seq<Frame>,
          positions: seq<nat>)
    requires callers != [] && FramesAt(callers[1..], table, later, fs)
    requires IsFrameOf(callers[0], table, f) && positions == [0] + Shifted(later)
    ensures FramesAt(callers, table, positions, [f] + fs)
  {
    forall p: nat | p < |callers| ensures p in positions <==> IsCovered(table, callers[p].retaddr) {
      CoveredPosition(callers, table, later, positions, p);
    }
    OneMorePosition(later, positions, |callers| - 1);
    OneMoreFrame(callers, table, later, positions, f, fs, [f] + fs);
  }

  lemma OneMorePosition(later: seq<nat>, positions: seq<nat>, n: nat)
    requires Increasing(later, n) && positions == [0] + Shifted(later)
    ensures Increasing(positions, n + 1)
  {
  }

  lemma OneMoreFrame(callers: seq<Caller>, table: seq<FuncTable>, later: seq<nat>, positions: seq<nat>,
          f: Frame, fs: seq<Frame>, all: seq<Frame>)
    requires callers != [] && |later| == |fs| && Increasing(later, |callers[1..]|)
    requires positions == [0] + Shifted(later) && all == [f] + fs
    requires IsFrameOf(callers[0], table, f)
    requires forall i | 0 <= i < |fs| :: IsFrameOf(callers[1..][later[i]], table, fs[i])
    ensures forall i | 0 <= i < |all| :: positions[i] < |callers| && IsFrameOf(callers[positions[i]], table, all[i])
  {
    forall i | 0 <= i < |all| ensures positions[i] < |callers| && IsFrameOf(callers[positions[i]], table, all[i]) {
      if i > 0 {
        var k := i - 1;
        assert positions[i] == later[k] + 1 && all[i] == fs[k];
        assert callers[1..][later[k]] == callers[positions[i]];
      }
    }
  }

  lemma CoveredPosition(callers: seq<Caller>, table: seq<FuncTable>, later: seq<nat>, positions: seq<nat>, p: nat)
    requires p < |callers| && positions == [0] + Shifted(later) && IsCovered(table, callers[0].retaddr)
    requires forall q: nat | q < |callers[1..]| :: q in later <==> IsCovered(table, callers[1..][q].retaddr)
    ensures p in positions <==> IsCovered(table, callers[p].retaddr)
  {
    ShiftedMembers(later);
    if p > 0 {
      assert callers[p] == callers[1..][p - 1];
    }
  }

  lemma ShiftedMembers(positions: seq<nat>)
    ensures forall p: nat :: p in Shifted(positions) <==> p > 0 && p - 1 in positions
  {
    forall p: nat | p > 0 && p - 1 in positions ensures p in Shifted(positions) {
      var i :| 0 <= i < |positions| && positions[i] == p - 1;
      assert Shifted(positions)[i] == p;
    }
  }

  lemma {:induction false} FindDataIsValid(table: seq<FuncTable>, address: nat)
    requires forall k | 0 <= k < |table| :: ValidPosixTable(table[k].handlertable)
    ensures var r := FindData(table, address); r.Some? ==> ValidPosixTable(r.value)
  {
    if table != [] && !Covers(table[0], address) {
      FindDataIsValid(table[1..], address);
    }
  }

  /** The region of handler `i`, whose end `ends[i]` the compiler knows but the table does not hold. */
  predicate Contains(t: PosixTable, ends: seq<nat>, i: int, retaddr: nat) {
    0 <= i < |t.offsets| && i < |ends| && t.fptr + t.offsets[i] <= retaddr < t.fptr + ends[i]
  }

  /** Regions are listed by where they start; an earlier one encloses a later one, on its chain, or has ended. */
  ghost predicate WellNested(t: PosixTable, ends: seq<nat>)
    requires ValidPosixTable(t)
  {
    && |ends| == |t.offsets|
    && (forall i | 0 <= i < |ends| :: t.offsets[i] < ends[i])
    && (forall j, i | 0 <= j < i < |ends| :: t.offsets[j] <= t.offsets[i])
    && (forall j, i | 0 <= j < i < |ends| ::
          if OnChain(t.handlers, i, j) then ends[i] <= ends[j] else ends[j] <= t.offsets[i])
  }

  /** The chain from `i` holds exactly the regions that contain the address, as `table_index` does on Windows. */
  ghost predicate IsInnermost(t: PosixTable, ends: seq<nat>, retaddr: nat, i: int)
    requires ValidPosixTable(t)
  {
    && -1 <= i < |t.handlers|
    && forall j | 0 <= j < |t.handlers| :: Contains(t, ends, j, retaddr) <==> OnChain(t.handlers, i, j)
  }

  /**
   The start index is the innermost region containing the address, and so the index that Windows would hold,
   if and only if the last region to start has not ended.  No region containing the address is ever missed.
   */
  lemma StartIndexIsInnermost(t: PosixTable, ends: seq<nat>, retaddr: nat)
    requires ValidPosixTable(t) && WellNested(t, ends)
    ensures var s := StartIndex(t, retaddr, |t.offsets|);
      && (IsInnermost(t, ends, retaddr, s) <==> s == -1 || retaddr < t.fptr + ends[s])
      && (forall i | IsInnermost(t, ends, retaddr, i) :: i == s <==> s == -1 || retaddr < t.fptr + ends[s])
      && (forall j | Contains(t, ends, j, retaddr) :: OnChain(t.handlers, s, j))
  {
    var s := StartIndex(t, retaddr, |t.offsets|);
    forall j | 0 <= j < |t.handlers| && Contains(t, ends, j, retaddr) ensures OnChain(t.handlers, s, j) {
      assert j <= s;
    }
    assert s != -1 ==> OnChain(t.handlers, s, s);
    forall j | 0 <= j < |t.handlers| && OnChain(t.handlers, s, j) && retaddr < t.fptr + ends[s]
      ensures Contains(t, ends, j, retaddr)
    {
      ChainIsBelow(t.handlers, s, j);
    }
    forall i | IsInnermost(t, ends, retaddr, i) && IsInnermost(t, ends, retaddr, s) ensures i == s {
      InnermostIsUnique(t, ends, retaddr, i, s);
    }
  }

  lemma InnermostIsUnique(t: PosixTable, ends: seq<nat>, retaddr: nat, i: int, s: int)
    requires ValidPosixTable(t) && IsInnermost(t, ends, retaddr, i) && IsInnermost(t, ends, retaddr, s)
    ensures i == s
  {
    if i != -1 {
      assert OnChain(t.handlers, i, i);
      ChainIsBelow(t.handlers, s, i);
    }
    if s != -1 {
      assert OnChain(t.handlers, s, s);
      ChainIsBelow(t.handlers, i, s);
    }
  }

  /** A `try` with a finally, from offset 0 to 10. */
  const LEFT := PosixTable(0, [0], [Handler(-1, None, Some(9))])

  /** A throw from behind the region runs the finally of the region, which has been left. */
  lemma LeftRegionIsWalked(c: Class, sub: Subclass)
    ensures ValidPosixTable(LEFT) && WellNested(LEFT, [10]) && IsInnermost(LEFT, [10], 20, -1)
    ensures var fs := PosixFrames([Caller(0, 20)], [FuncTable(0, 30, LEFT)]);
      OnePass(fs, c, sub) == Outcome(None, [Call(0, 0, 9)])
  {
    var callers, table := [Caller(0, 20)], [FuncTable(0, 30, LEFT)];
    assert callers[1..] == [];
    assert FindData(table, 20) == Some(LEFT);
    assert StartIndex(LEFT, 20, 1) == 0;
    assert PosixFrames(callers, table) == [Frame(0, LEFT.handlers, 0)];
    assert Walk(0, LEFT.handlers, -1, c, sub) == (None, []);
    assert Walk(0, LEFT.handlers, 0, c, sub).1 == FinallyOf(0, LEFT.handlers, 0) + [];
  }

  class Posix {
    var calls: seq<Call>

    constructor ()
      ensures calls == []
    {
      calls := [];
    }

    /** The body of the loop in `_d_throw`: the handler chain of one frame, finally blocks run in passing. */
    method WalkFrame(bp: nat, t: seq<Handler>, index: int, c: Class, sub: Subclass) returns (found: Option<(int, nat)>)
      requires ValidTable(t) && -1 <= index < |t|
      modifies this
      ensures found == Walk(bp, t, index, c, sub).0
      ensures calls == old(calls) + Walk(bp, t, index, c, sub).1
    {
      var ndx := index;
      while ndx != -1
        invariant -1 <= ndx < |t|
        invariant Walk(bp, t, ndx, c, sub).0 == Walk(bp, t, index, c, sub).0
        invariant calls + Walk(bp, t, ndx, c, sub).1 == old(calls) + Walk(bp, t, index, c, sub).1
        decreases ndx
      {
        var phi := t[ndx];
        var prevNdx := phi.prevIndex;
        if phi.catches.Some? {
          var block := ScanCatches(phi.catches.value, c, sub);
          if block.Some? {
            return Some((ndx, block.value));
          }
        } else if phi.finallyCode.Some? {
          Associative(calls, FinallyOf(bp, t, ndx), Walk(bp, t, prevNdx, c, sub).1);
          calls := calls + [Call(bp, ndx, phi.finallyCode.value)];
        }
        ndx := prevNdx;
      }
      return None;
    }

    /** `_d_throw`. */
    method Throw(callers: seq<Caller>, table: seq<FuncTable>, c: Class, sub: Subclass) returns (target: Option<Target>)
      requires forall k | 0 <= k < |table| :: ValidPosixTable(table[k].handlertable)
      modifies this
      ensures target == OnePass(PosixFrames(callers, table), c, sub).target
      ensures calls == old(calls) + OnePass(PosixFrames(callers, table), c, sub).calls
    {
      var k := 0;
      while k < |callers|
        invariant 0 <= k <= |callers|
        invariant OnePass(PosixFrames(callers[k..], table), c, sub).target ==
                  OnePass(PosixFrames(callers, table), c, sub).target
        invariant calls + OnePass(PosixFrames(callers[k..], table), c, sub).calls ==
                  old(calls) + OnePass(PosixFrames(callers, table), c, sub).calls
      {
        assert callers[k..][0] == callers[k] && callers[k..][1..] == callers[k + 1..];
        var caller := callers[k];
        var data := EhFindData(table, caller.retaddr);
        k := k + 1;
        if data.None? {
          continue;
        }
        FindDataIsValid(table, caller.retaddr);
        var t := data.value;
        var index := -1;
        var i := 0;
        while i < |t.offsets|
          invariant 0 <= i <= |t.offsets|
          invariant index == StartIndex(t, caller.retaddr, i)
        {
          if caller.retaddr >= t.fptr + t.offsets[i] {
            index := i;
          }
          i := i + 1;
        }
        ghost var fs := PosixFrames(callers[k - 1..], table);
        assert fs[0] == Frame(caller.bp, t.handlers, index) && fs[1..] == PosixFrames(callers[k..], table);
        var found := WalkFrame(caller.bp, t.handlers, index, c, sub);
        if found.Some? {
          return Some(Target(caller.bp, found.value.0, found.value.1));
        }
      }
      target := None;
    }
  }

  /**
   The two runtimes on one stack: when the registered Windows frames and the POSIX call chain show the
   same tables and start indices, and the tables are as compilers emit them, a caught exception lands in
   the same catch block after the same finally blocks.
   */
  method ThrowOnBoth(chain: seq<EstablisherFrame>, callers: seq<Caller>, table: seq<FuncTable>, c: Class, sub: Subclass)
    returns (windows: Outcome, posix: Outcome)
    requires forall k | 0 <= k < |table| :: ValidPosixTable(table[k].handlertable)
    requires DistinctObjects(chain) && Views(chain) == PosixFrames(callers, table)
    requires forall k, i | 0 <= k < |chain| && 0 <= i < |chain[k].table| :: !Mixed(chain[k].table[i])
    modifies chain
    ensures windows.target == posix.target
    ensures windows.target.Some? ==> windows.calls == posix.calls
    ensures windows.target.None? ==> windows.calls == [] && posix.calls == UnwindAll(old(Views(chain)))
  {
    ghost var fs := Views(chain);
    assert forall k | 0 <= k < |fs| :: fs[k] == View(chain[k]);
    AlgorithmsAgreeOnCompiledTables(fs, c, sub);
    var w := new Windows();
    var p := new Posix();
    var wt := w.Throw(chain, c, sub);
    var pt := p.Throw(callers, table, c, sub);
    windows, posix := Outcome(wt, w.calls), Outcome(pt, p.calls);
  }
}
