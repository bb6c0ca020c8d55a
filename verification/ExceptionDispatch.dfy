/**
 Exception dispatch of the D runtime (runtime/compiler/dmd/deh.c).

 One `throw` has two implementations.  Windows searches the registered frames for a matching catch
 and only then unwinds: the finally blocks of the inner frames, then the skipped ones of the catching
 frame.  POSIX walks frames and handler chains once and runs finally blocks as it passes them.

 This module holds the data and the meaning of both; the loops are in `DispatchLoops`.
 */
module ExceptionDispatch {
  import opened Options
  import opened Sequences

  type Class = nat   // identity of a ClassInfo
  type Code = nat    // address of catch or finally code

  datatype CatchBlock = CatchBlock(ctype: Class, code: Code)

  /** `catches` is present iff `cioffset != 0`, `finallyCode` iff `finally_code != 0`. */
  datatype Handler = Handler(prevIndex: int, catches: Option<seq<CatchBlock>>, finallyCode: Option<Code>)

  /** A frame as dispatch sees it: its table and the index from which its handler chain starts. */
  datatype Frame = Frame(bp: nat, table: seq<Handler>, start: int)

  /** One execution of a finally block. */
  datatype Call = Call(bp: nat, index: int, code: Code)

  /** Where control goes: the frame, the handler and the catch block in it. */
  datatype Target = Target(bp: nat, index: int, block: nat)

  datatype Outcome = Outcome(target: Option<Target>, calls: seq<Call>)

  /** The subclass test `_d_isbaseof(thrown, caught)`. */
  type Subclass = (Class, Class) -> bool

  predicate ValidTable(t: seq<Handler>) {
    forall i | 0 <= i < |t| :: -1 <= t[i].prevIndex < i
  }

  predicate ValidFrame(f: Frame) {
    ValidTable(f.table) && -1 <= f.start < |f.table|
  }

  predicate ValidStack(fs: seq<Frame>) {
    forall k | 0 <= k < |fs| :: ValidFrame(fs[k])
  }

  /** An entry that is both a catch and a finally; the compiler emits none. */
  predicate Mixed(h: Handler) {
    h.catches.Some? && h.finallyCode.Some?
  }

  // ---------------------------------------------------------------- one frame

  /** The first catch block, from number `k` on, that accepts class `c`. */
  function FirstMatch(cbs: seq<CatchBlock>, k: nat, c: Class, sub: Subclass): (r: Option<nat>)
    requires k <= |cbs|
    ensures r.Some? ==> k <= r.value < |cbs| && sub(c, cbs[r.value].ctype)
    ensures forall m | k <= m < (if r.Some? then r.value else |cbs|) :: !sub(c, cbs[m].ctype)
    decreases |cbs| - k
  {
    if k == |cbs| then None
    else if sub(c, cbs[k].ctype) then Some(k)
    else FirstMatch(cbs, k + 1, c, sub)
  }

  function Match(h: Handler, c: Class, sub: Subclass): Option<nat> {
    if h.catches.Some? then FirstMatch(h.catches.value, 0, c, sub) else None
  }

  /** Handler `j` lies on the `prev_index` chain that starts at `i`. */
  predicate OnChain(t: seq<Handler>, i: int, j: int)
    requires ValidTable(t) && -1 <= i < |t|
    decreases i
  {
    i != -1 && (i == j || OnChain(t, t[i].prevIndex, j))
  }

  /** The handler and catch block that the chain from `i` offers for class `c`. */
  function Search(t: seq<Handler>, i: int, c: Class, sub: Subclass): Option<(int, nat)>
    requires ValidTable(t) && -1 <= i < |t|
    decreases i
  {
    if i == -1 then None
    else
      var m := Match(t[i], c, sub);
      if m.Some? then Some((i, m.value)) else Search(t, t[i].prevIndex, c, sub)
  }

  /** What `_d_local_unwind` runs: every finally on the chain from `i`, stopping before `stop`. */
  function Unwind(bp: nat, t: seq<Handler>, i: int, stop: int): seq<Call>
    requires ValidTable(t) && -1 <= i < |t|
    decreases i
  {
    if i == -1 || i == stop then []
    else FinallyOf(bp, t, i) + Unwind(bp, t, t[i].prevIndex, stop)
  }

  function FinallyOf(bp: nat, t: seq<Handler>, i: int): seq<Call>
    requires 0 <= i < |t|
  {
    if t[i].finallyCode.Some? then [Call(bp, i, t[i].finallyCode.value)] else []
  }

  /** What the POSIX loop does in one frame: a finally runs only when the entry is no catch. */
  function Walk(bp: nat, t: seq<Handler>, i: int, c: Class, sub: Subclass): (Option<(int, nat)>, seq<Call>)
    requires ValidTable(t) && -1 <= i < |t|
    decreases i
  {
    if i == -1 then (None, [])
    else
      var m := Match(t[i], c, sub);
      if m.Some? then (Some((i, m.value)), [])
      else
        var rest := Walk(bp, t, t[i].prevIndex, c, sub);
        (rest.0, (if t[i].catches.Some? then [] else FinallyOf(bp, t, i)) + rest.1)
  }

  // ---------------------------------------------------------------- the whole stack, innermost frame first

  /** The depth, handler and catch block that the Windows search phase settles on. */
  function SearchStack(fs: seq<Frame>, c: Class, sub: Subclass): (r: Option<(nat, int, nat)>)
    requires ValidStack(fs)
    ensures r.Some? ==> r.value.0 < |fs|
  {
    if fs == [] then None
    else
      var m := Search(fs[0].table, fs[0].start, c, sub);
      if m.Some? then Some((0, m.value.0, m.value.1))
      else
        var r := SearchStack(fs[1..], c, sub);
        if r.Some? then Some((r.value.0 + 1, r.value.1, r.value.2)) else None
  }

  /** Every finally still pending in the given frames, as the unwind phase runs them. */
  function UnwindAll(fs: seq<Frame>): seq<Call>
    requires ValidStack(fs)
  {
    if fs == [] then []
    else Unwind(fs[0].bp, fs[0].table, fs[0].start, -1) + UnwindAll(fs[1..])
  }

  /** The Windows outcome. */
  function TwoPhase(fs: seq<Frame>, c: Class, sub: Subclass): Outcome
    requires ValidStack(fs)
  {
    var s := SearchStack(fs, c, sub);
    if s.None? then Outcome(None, [])
    else
      var (depth, index, block) := s.value;
      var f := fs[depth];
      Outcome(Some(Target(f.bp, index, block)), UnwindAll(fs[..depth]) + Unwind(f.bp, f.table, f.start, index))
  }

  /** Only the catching frame changes: its `table_index` is out of the handler. */
  function CatchTaken(fs: seq<Frame>, depth: nat, index: int): seq<Frame>
    requires depth < |fs|
  {
    if 0 <= index < |fs[depth].table| then fs[depth := fs[depth].(start := fs[depth].table[index].prevIndex)] else fs
  }

  /** The POSIX outcome. */
  function OnePass(fs: seq<Frame>, c: Class, sub: Subclass): Outcome
    requires ValidStack(fs)
  {
    if fs == [] then Outcome(None, [])
    else
      var (found, calls) := Walk(fs[0].bp, fs[0].table, fs[0].start, c, sub);
      if found.Some? then Outcome(Some(Target(fs[0].bp, found.value.0, found.value.1)), calls)
      else
        var rest := OnePass(fs[1..], c, sub);
        Outcome(rest.target, calls + rest.calls)
  }

  // ---------------------------------------------------------------- what the frame functions mean

  lemma {:induction false} ChainIsBelow(t: seq<Handler>, i: int, j: int)
    requires ValidTable(t) && -1 <= i < |t|
    requires OnChain(t, i, j)
    ensures 0 <= j <= i
    decreases i
  {
    if i != j {
      ChainIsBelow(t, t[i].prevIndex, j);
    }
  }

  lemma {:induction false} ChainIsTransitive(t: seq<Handler>, i: int, j: int, k: int)
    requires ValidTable(t) && -1 <= i < |t| && 0 <= j < |t|
    requires OnChain(t, i, j) && OnChain(t, j, k)
    ensures OnChain(t, i, k)
    decreases i
  {
    if i != j {
      ChainIsTransitive(t, t[i].prevIndex, j, k);
    }
  }

  /** Behind a handler of a chain lie exactly the handlers of the chain with a smaller index. */
  lemma {:induction false} ChainBehind(t: seq<Handler>, i: int, index: int, j: int)
    requires ValidTable(t) && -1 <= i < |t| && 0 <= index < |t| && OnChain(t, i, index)
    ensures OnChain(t, t[index].prevIndex, j) <==> OnChain(t, i, j) && j < index
    decreases i
  {
    if i != index {
      ChainIsBelow(t, t[i].prevIndex, index);
      ChainBehind(t, t[i].prevIndex, index, j);
    } else if OnChain(t, t[index].prevIndex, j) {
      ChainIsBelow(t, t[index].prevIndex, j);
    }
  }

  /**
   Taking the catch of handler `index` leaves, of the chain of its frame, exactly the handlers outside it, and
   all other frames as they were.
   */
  ghost predicate HandlerLeft(before: seq<Frame>, after: seq<Frame>, depth: nat, index: int)
    requires ValidStack(before) && depth < |before|
  {
    && ValidStack(after) && |after| == |before|
    && (forall k | 0 <= k < |before| && k != depth :: after[k] == before[k])
    && after[depth].bp == before[depth].bp && after[depth].table == before[depth].table
    && forall j | 0 <= j < |before[depth].table| ::
         OnChain(before[depth].table, after[depth].start, j) <==>
         OnChain(before[depth].table, before[depth].start, j) && j < index
  }

  lemma CatchLeavesHandler(fs: seq<Frame>, depth: nat, index: int)
    requires ValidStack(fs) && depth < |fs| && 0 <= index < |fs[depth].table|
    requires OnChain(fs[depth].table, fs[depth].start, index)
    ensures HandlerLeft(fs, CatchTaken(fs, depth, index), depth, index)
  {
    var f := fs[depth];
    forall j | 0 <= j < |f.table|
      ensures OnChain(f.table, f.table[index].prevIndex, j) <==> OnChain(f.table, f.start, j) && j < index
    {
      ChainBehind(f.table, f.start, index, j);
    }
  }

  /** The search takes the innermost handler of the chain that accepts the class. */
  ghost predicate IsInnermostMatch(t: seq<Handler>, i: int, c: Class, sub: Subclass, index: int, block: nat)
    requires ValidTable(t) && -1 <= i < |t|
  {
    && OnChain(t, i, index) && 0 <= index < |t|
    && t[index].catches.Some? && block < |t[index].catches.value|
    && sub(c, t[index].catches.value[block].ctype)
    && (forall k | 0 <= k < block :: !sub(c, t[index].catches.value[k].ctype))
    && (forall j | index < j < |t| && OnChain(t, i, j) && t[j].catches.Some? ::
          forall k | 0 <= k < |t[j].catches.value| :: !sub(c, t[j].catches.value[k].ctype))
  }

  ghost predicate Accepts(t: seq<Handler>, i: int, c: Class, sub: Subclass)
    requires ValidTable(t) && -1 <= i < |t|
  {
    exists j | 0 <= j < |t| && OnChain(t, i, j) && t[j].catches.Some? ::
      exists k | 0 <= k < |t[j].catches.value| :: sub(c, t[j].catches.value[k].ctype)
  }

  /** `Search` finds a handler iff some reachable catch accepts the class, and then the innermost one. */
  lemma {:induction false} SearchFindsInnermost(t: seq<Handler>, i: int, c: Class, sub: Subclass)
    requires ValidTable(t) && -1 <= i < |t|
    ensures Search(t, i, c, sub).Some? <==> Accepts(t, i, c, sub)
    ensures var r := Search(t, i, c, sub);
      r.Some? ==> IsInnermostMatch(t, i, c, sub, r.value.0, r.value.1)
    decreases i
  {
    if i != -1 {
      forall j | 0 <= j < |t| && OnChain(t, i, j) ensures j <= i {
        ChainIsBelow(t, i, j);
      }
      if Match(t[i], c, sub).None? {
        SearchFindsInnermost(t, t[i].prevIndex, c, sub);
      } else {
        assert OnChain(t, i, i);
      }
    }
  }

  ghost predicate FrameAccepts(f: Frame, c: Class, sub: Subclass)
    requires ValidFrame(f)
  {
    Accepts(f.table, f.start, c, sub)
  }

  /** The search settles on the innermost frame that accepts the class, if any does, and on what its chain offers. */
  lemma {:induction false} SearchStackFindsInnermost(fs: seq<Frame>, c: Class, sub: Subclass)
    requires ValidStack(fs)
    ensures SearchStack(fs, c, sub).Some? <==> exists k :: 0 <= k < |fs| && FrameAccepts(fs[k], c, sub)
    ensures var s := SearchStack(fs, c, sub);
      s.Some? ==>
        var (depth, index, block) := s.value;
        var f := fs[depth];
        && (forall k | 0 <= k < depth :: !FrameAccepts(fs[k], c, sub))
        && IsInnermostMatch(f.table, f.start, c, sub, index, block) && index <= f.start
        && Search(f.table, f.start, c, sub) == Some((index, block))
    decreases |fs|
  {
    if fs != [] {
      var f := fs[0];
      SearchFindsInnermost(f.table, f.start, c, sub);
      var m := Search(f.table, f.start, c, sub);
      if m.Some? {
        ChainIsBelow(f.table, f.start, m.value.0);
      } else {
        SearchStackFindsInnermost(fs[1..], c, sub);
        assert forall k | 0 < k < |fs| :: fs[k] == fs[1..][k - 1];
      }
    }
  }

  /** Strictly decreasing handler indices: no block twice, inner blocks first. */
  ghost predicate InnermostFirst(calls: seq<Call>) {
    forall a, b | 0 <= a < b < |calls| :: calls[a].index > calls[b].index
  }

  ghost predicate IsPending(bp: nat, t: seq<Handler>, i: int, stop: int, call: Call)
    requires ValidTable(t) && -1 <= i < |t|
  {
    && 0 <= call.index < |t| && OnChain(t, i, call.index) && call.index > stop
    && call.bp == bp && t[call.index].finallyCode == Some(call.code)
  }

  /**
   Unwinding to a handler of the chain (or to the end) runs exactly the finally blocks strictly inside
   it, each once, innermost first.  Membership and strict order determine the sequence.
   */
  lemma {:induction false} UnwindRunsPending(bp: nat, t: seq<Handler>, i: int, stop: int)
    requires ValidTable(t) && -1 <= i < |t|
    requires stop == -1 || OnChain(t, i, stop)
    ensures InnermostFirst(Unwind(bp, t, i, stop))
    ensures forall call :: call in Unwind(bp, t, i, stop) <==> IsPending(bp, t, i, stop, call)
    decreases i
  {
    if stop != -1 {
      ChainIsBelow(t, i, stop);
    }
    if i != -1 && i != stop {
      UnwindRunsPending(bp, t, t[i].prevIndex, stop);
    }
    forall j | 0 <= j < |t| && OnChain(t, i, j) ensures j <= i {
      ChainIsBelow(t, i, j);
    }
    if i != -1 && i != stop {
      var rest := Unwind(bp, t, t[i].prevIndex, stop);
      forall call | call in rest ensures call.index < i {
        ChainIsBelow(t, t[i].prevIndex, call.index);
      }
      forall call ensures call in Unwind(bp, t, i, stop) <==> IsPending(bp, t, i, stop, call) {
        assert call in Unwind(bp, t, i, stop) <==> call in FinallyOf(bp, t, i) || call in rest;
      }
    }
  }

  // ---------------------------------------------------------------- the two algorithms agree

  /** No catch-and-finally entry on the chain strictly inside `stop`. */
  ghost predicate Unmixed(t: seq<Handler>, i: int, stop: int)
    requires ValidTable(t) && -1 <= i < |t|
  {
    forall j | 0 <= j < |t| && stop < j && OnChain(t, i, j) :: !Mixed(t[j])
  }

  function StopOf(found: Option<(int, nat)>): int {
    if found.Some? then found.value.0 else -1
  }

  lemma {:induction false} SearchStaysBelow(t: seq<Handler>, i: int, c: Class, sub: Subclass)
    requires ValidTable(t) && -1 <= i < |t|
    ensures StopOf(Search(t, i, c, sub)) <= i
    ensures Search(t, i, c, sub).Some? ==> OnChain(t, i, Search(t, i, c, sub).value.0)
    decreases i
  {
    if i != -1 && Match(t[i], c, sub).None? {
      SearchStaysBelow(t, t[i].prevIndex, c, sub);
    }
  }

  lemma {:induction false} WalkMatchesSearch(bp: nat, t: seq<Handler>, i: int, c: Class, sub: Subclass)
    requires ValidTable(t) && -1 <= i < |t|
    ensures Walk(bp, t, i, c, sub).0 == Search(t, i, c, sub)
    ensures var stop := StopOf(Search(t, i, c, sub));
      && |Walk(bp, t, i, c, sub).1| <= |Unwind(bp, t, i, stop)|
      && (Walk(bp, t, i, c, sub).1 == Unwind(bp, t, i, stop) <==> Unmixed(t, i, stop))
      && (|Walk(bp, t, i, c, sub).1| == |Unwind(bp, t, i, stop)| <==> Unmixed(t, i, stop))
    decreases i
  {
    forall j | 0 <= j < |t| && OnChain(t, i, j) ensures j <= i {
      ChainIsBelow(t, i, j);
    }
    if i != -1 && Match(t[i], c, sub).None? {
      var p := t[i].prevIndex;
      WalkMatchesSearch(bp, t, p, c, sub);
      SearchStaysBelow(t, p, c, sub);
      var stop := StopOf(Search(t, i, c, sub));
      assert stop < i;
      assert Unmixed(t, i, stop) <==> !Mixed(t[i]) && Unmixed(t, p, stop) by {
        assert forall j | 0 <= j < |t| :: OnChain(t, i, j) <==> i == j || OnChain(t, p, j);
      }
      assert Unwind(bp, t, i, stop) == FinallyOf(bp, t, i) + Unwind(bp, t, p, stop);
      var own := if t[i].catches.Some? then [] else FinallyOf(bp, t, i);
      assert Walk(bp, t, i, c, sub).1 == own + Walk(bp, t, p, c, sub).1;
      if !Mixed(t[i]) {
        assert own == FinallyOf(bp, t, i);
        if Walk(bp, t, i, c, sub).1 == Unwind(bp, t, i, stop) {
          assert |Walk(bp, t, p, c, sub).1| == |Unwind(bp, t, p, stop)|;
        }
      }
    }
  }

  /** No mixed entry among those that the dispatch of `c` passes. */
  ghost predicate UnmixedStack(fs: seq<Frame>, c: Class, sub: Subclass)
    requires ValidStack(fs)
  {
    forall k | 0 <= k < |fs| && SearchStack(fs[..k], c, sub).None? ::
      Unmixed(fs[k].table, fs[k].start, StopOf(Search(fs[k].table, fs[k].start, c, sub)))
  }

  /** The walk runs what the unwind runs, but for the finally blocks of entries that are catches too. */
  lemma {:induction false} WalkSkipsMixed(bp: nat, t: seq<Handler>, i: int, c: Class, sub: Subclass)
    requires ValidTable(t) && -1 <= i < |t|
    ensures InnermostFirst(Walk(bp, t, i, c, sub).1)
    ensures forall call :: call in Walk(bp, t, i, c, sub).1 <==>
      IsPending(bp, t, i, StopOf(Search(t, i, c, sub)), call) && !Mixed(t[call.index])
    decreases i
  {
    forall j | 0 <= j < |t| && OnChain(t, i, j) ensures j <= i {
      ChainIsBelow(t, i, j);
    }
    if i != -1 && Match(t[i], c, sub).None? {
      var p, rest := t[i].prevIndex, Walk(bp, t, t[i].prevIndex, c, sub).1;
      WalkSkipsMixed(bp, t, p, c, sub);
      SearchStaysBelow(t, p, c, sub);
      var own := if t[i].catches.Some? then [] else FinallyOf(bp, t, i);
      forall call | call in rest ensures call.index < i {
        ChainIsBelow(t, p, call.index);
      }
      forall call ensures call in own + rest <==>
        IsPending(bp, t, i, StopOf(Search(t, i, c, sub)), call) && !Mixed(t[call.index])
      {
        assert call in own + rest <==> call in own || call in rest;
      }
    }
  }

  lemma {:induction false} SearchStackPrefix(fs: seq<Frame>, k: nat, c: Class, sub: Subclass)
    requires ValidStack(fs) && k < |fs|
    ensures SearchStack(fs[..k + 1], c, sub).None? <==>
      SearchStack(fs[..1], c, sub).None? && SearchStack(fs[1..][..k], c, sub).None?
  {
    assert fs[..k + 1][0] == fs[0] && fs[..1][0] == fs[0];
    assert fs[..k + 1][1..] == fs[1..][..k];
    assert fs[..1][1..] == [];
  }

  lemma UnmixedStackStep(fs: seq<Frame>, c: Class, sub: Subclass)
    requires ValidStack(fs) && fs != []
    ensures var m := Search(fs[0].table, fs[0].start, c, sub);
      UnmixedStack(fs, c, sub) <==>
      Unmixed(fs[0].table, fs[0].start, StopOf(m)) && (m.None? ==> UnmixedStack(fs[1..], c, sub))
  {
    var m := Search(fs[0].table, fs[0].start, c, sub);
    assert fs[..0] == [];
    assert fs[..1][0] == fs[0] && fs[..1][1..] == [];
    assert SearchStack(fs[..1], c, sub).None? <==> m.None?;
    if UnmixedStack(fs, c, sub) {
      assert Unmixed(fs[0].table, fs[0].start, StopOf(m));
      if m.None? {
        forall k | 0 <= k < |fs[1..]| && SearchStack(fs[1..][..k], c, sub).None?
          ensures var f := fs[1..][k]; Unmixed(f.table, f.start, StopOf(Search(f.table, f.start, c, sub)))
        {
          SearchStackPrefix(fs, k, c, sub);
          assert fs[1..][k] == fs[k + 1];
        }
      }
    }
    if Unmixed(fs[0].table, fs[0].start, StopOf(m)) && (m.None? ==> UnmixedStack(fs[1..], c, sub)) {
      forall k | 0 <= k < |fs| && SearchStack(fs[..k], c, sub).None?
        ensures Unmixed(fs[k].table, fs[k].start, StopOf(Search(fs[k].table, fs[k].start, c, sub)))
      {
        if k > 0 {
          SearchStackPrefix(fs, k - 1, c, sub);
          assert fs[1..][k - 1] == fs[k];
        }
      }
    }
  }

  /** The finally blocks the Windows unwind would run, also when nothing catches. */
  function FullUnwind(fs: seq<Frame>, c: Class, sub: Subclass): seq<Call>
    requires ValidStack(fs)
  {
    if SearchStack(fs, c, sub).Some? then TwoPhase(fs, c, sub).calls else UnwindAll(fs)
  }

  lemma FullUnwindStep(fs: seq<Frame>, c: Class, sub: Subclass)
    requires ValidStack(fs) && fs != [] && Search(fs[0].table, fs[0].start, c, sub).None?
    ensures FullUnwind(fs, c, sub) == Unwind(fs[0].bp, fs[0].table, fs[0].start, -1) + FullUnwind(fs[1..], c, sub)
  {
    var s := SearchStack(fs[1..], c, sub);
    if s.Some? {
      var d := s.value.0;
      var f, g := fs[0], fs[d + 1];
      assert fs[..d + 1][0] == f && fs[..d + 1][1..] == fs[1..][..d];
      assert fs[1..][d] == g;
      var last := Unwind(g.bp, g.table, g.start, s.value.1);
      assert TwoPhase(fs, c, sub).calls == UnwindAll(fs[..d + 1]) + last;
      assert TwoPhase(fs[1..], c, sub).calls == UnwindAll(fs[1..][..d]) + last;
      Associative(Unwind(f.bp, f.table, f.start, -1), UnwindAll(fs[1..][..d]), last);
    }
  }

  /**
   Both algorithms pick the same frame, handler and catch block.  They run the same finally blocks in
   the same order iff no passed entry is both a catch and a finally; when nothing catches, Windows runs
   none and POSIX runs everything that was pending.
   */
  lemma {:induction false} AlgorithmsAgree(fs: seq<Frame>, c: Class, sub: Subclass)
    requires ValidStack(fs)
    ensures TwoPhase(fs, c, sub).target == OnePass(fs, c, sub).target
    ensures OnePass(fs, c, sub).target.Some? ==>
      (TwoPhase(fs, c, sub).calls == OnePass(fs, c, sub).calls <==> UnmixedStack(fs, c, sub))
    ensures OnePass(fs, c, sub).target.None? ==> TwoPhase(fs, c, sub).calls == []
    ensures OnePass(fs, c, sub).calls == FullUnwind(fs, c, sub) <==> UnmixedStack(fs, c, sub)
    ensures |OnePass(fs, c, sub).calls| <= |FullUnwind(fs, c, sub)|
    ensures |OnePass(fs, c, sub).calls| == |FullUnwind(fs, c, sub)| <==> UnmixedStack(fs, c, sub)
    decreases |fs|
  {
    if fs != [] {
      var f := fs[0];
      var m := Search(f.table, f.start, c, sub);
      WalkMatchesSearch(f.bp, f.table, f.start, c, sub);
      UnmixedStackStep(fs, c, sub);
      if m.Some? {
        assert fs[..0] == [];
      } else {
        AlgorithmsAgree(fs[1..], c, sub);
        FullUnwindStep(fs, c, sub);
        var w, u := Walk(f.bp, f.table, f.start, c, sub).1, Unwind(f.bp, f.table, f.start, -1);
        var rw, ru := OnePass(fs[1..], c, sub).calls, FullUnwind(fs[1..], c, sub);
        assert OnePass(fs, c, sub).calls == w + rw;
        assert FullUnwind(fs, c, sub) == u + ru;
        if w + rw == u + ru {
          assert |w| + |rw| == |u| + |ru|;
        }
      }
    }
  }

  /** For the tables compilers emit, one throw has one meaning. */
  lemma AlgorithmsAgreeOnCompiledTables(fs: seq<Frame>, c: Class, sub: Subclass)
    requires ValidStack(fs)
    requires forall k, i | 0 <= k < |fs| && 0 <= i < |fs[k].table| :: !Mixed(fs[k].table[i])
    ensures TwoPhase(fs, c, sub).target == OnePass(fs, c, sub).target
    ensures OnePass(fs, c, sub).target.Some? ==> TwoPhase(fs, c, sub) == OnePass(fs, c, sub)
    ensures OnePass(fs, c, sub).target.None? ==>
      TwoPhase(fs, c, sub).calls == [] && OnePass(fs, c, sub).calls == UnwindAll(fs)
  {
    AlgorithmsAgree(fs, c, sub);
    forall k | 0 <= k < |fs| && SearchStack(fs[..k], c, sub).None?
      ensures Unmixed(fs[k].table, fs[k].start, StopOf(Search(fs[k].table, fs[k].start, c, sub)))
    {
    }
  }

  /** A catch that accepts class 1 around a `try` with both a catch of class 2 and a finally. */
  const BOTH := [
    Handler(-1, Some([CatchBlock(1, 7)]), None),
    Handler(0, Some([CatchBlock(2, 8)]), Some(9))
  ]

  /** The mixed entry is passed: Windows runs its finally, POSIX does not. */
  lemma MixedEntryIsSkipped(sub: Subclass)
    requires sub(1, 1) && !sub(1, 2)
    ensures var fs := [Frame(0, BOTH, 1)];
      && ValidStack(fs)
      && TwoPhase(fs, 1, sub) == Outcome(Some(Target(0, 0, 0)), [Call(0, 1, 9)])
      && OnePass(fs, 1, sub) == Outcome(Some(Target(0, 0, 0)), [])
  {
    var fs := [Frame(0, BOTH, 1)];
    assert Match(BOTH[0], 1, sub) == Some(0) && Match(BOTH[1], 1, sub) == None;
    assert Search(BOTH, 0, 1, sub) == Some((0, 0));
    assert Search(BOTH, 1, 1, sub) == Some((0, 0));
    assert Unwind(0, BOTH, 1, 0) == [Call(0, 1, 9)] + Unwind(0, BOTH, 0, 0);
    assert UnwindAll(fs[..0]) == [];
    assert Walk(0, BOTH, 0, 1, sub) == (Some((0, 0)), []);
  }
}
