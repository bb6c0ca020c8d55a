/**
 Whole runs of a thread on the Windows path: functions are called and return, `try` regions are entered
 and left, and exceptions are thrown any number of times (runtime/compiler/dmd/deh.c:112-212, 390-436).
 */
module DispatchRuns {
  import opened Sequences
  import opened ExceptionDispatch

  datatype Event =
    | Called(table: seq<Handler>)   // a function with this handler table is entered
    | Returned                      // the innermost function returns
    | Entered(index: int)           // the innermost function enters the `try` region of this handler
    | Left                          // and leaves its current region without an exception
    | Thrown(c: Class)

  /** One entry into one `try` region: the frame activation, the handler and a unique stamp. */
  datatype Entry = Entry(bp: nat, index: int, stamp: nat)

  /**
   `ran` lists the entries whose finally block dispatch has run, `caught` those whose catch it has taken.
   `next` numbers activations and entries.
   */
  datatype Run = Run(stack: seq<Frame>, stamps: map<(nat, int), nat>, ran: seq<Entry>, caught: seq<Entry>, next: nat)

  const START := Run([], map[], [], [], 0)

  function EntryOf(stamps: map<(nat, int), nat>, bp: nat, index: int): Entry {
    Entry(bp, index, if (bp, index) in stamps then stamps[(bp, index)] else 0)
  }

  function EntriesOf(stamps: map<(nat, int), nat>, calls: seq<Call>): (r: seq<Entry>)
    ensures |r| == |calls|
    ensures forall k | 0 <= k < |r| :: r[k] == EntryOf(stamps, calls[k].bp, calls[k].index)
  {
    seq(|calls|, k requires 0 <= k < |calls| => EntryOf(stamps, calls[k].bp, calls[k].index))
  }

  predicate Enabled(r: Run, e: Event) {
    match e
    case Called(table) => ValidTable(table)
    case Returned => r.stack != []
    case Entered(index) =>
      r.stack != [] && 0 <= index < |r.stack[0].table| && r.stack[0].table[index].prevIndex == r.stack[0].start
    case Left => r.stack != [] && 0 <= r.stack[0].start < |r.stack[0].table|
    case Thrown(c) => ValidStack(r.stack)
  }

  function Step(r: Run, e: Event, sub: Subclass): Run
    requires Enabled(r, e)
  {
    match e
    case Called(table) => r.(stack := [Frame(r.next, table, -1)] + r.stack, next := r.next + 1)
    case Returned => r.(stack := r.stack[1..])
    case Entered(index) =>
      var f := r.stack[0];
      r.(stack := [f.(start := index)] + r.stack[1..],
         stamps := r.stamps[(f.bp, index) := r.next],
         next := r.next + 1)
    case Left =>
      var f := r.stack[0];
      r.(stack := [f.(start := f.table[f.start].prevIndex)] + r.stack[1..])
    case Thrown(c) =>
      var s := SearchStack(r.stack, c, sub);
      if s.None? then r
      else
        var (depth, index, block) := s.value;
        var f := r.stack[depth];
        r.(stack := CatchTaken(r.stack, depth, index)[depth..],
           ran := r.ran + EntriesOf(r.stamps, TwoPhase(r.stack, c, sub).calls),
           caught := r.caught + [EntryOf(r.stamps, f.bp, index)])
  }

  // ---------------------------------------------------------------- what a step does

  /** The regions of the frame that have been entered and not left. */
  ghost function Regions(f: Frame): set<int>
    requires ValidFrame(f)
  {
    set j | 0 <= j < |f.table| && OnChain(f.table, f.start, j)
  }

  /** `f'` is the activation `f`, inside the regions `regions`. */
  ghost predicate SameInside(f: Frame, f': Frame, regions: set<int>) {
    f'.bp == f.bp && f'.table == f.table && ValidFrame(f') && Regions(f') == regions
  }

  /** `stack'` is `stack` but for its innermost frame, which is inside the regions `regions`. */
  ghost predicate InnermostInside(stack: seq<Frame>, stack': seq<Frame>, regions: set<int>) {
    |stack'| == |stack| > 0 && stack'[1..] == stack[1..] && SameInside(stack[0], stack'[0], regions)
  }

  /**
   Calls, returns and quiet entries and exits change the regions of the innermost frame only, one at a time.  A
   caught throw drops the frames within, and leaves of the regions of the catching frame those outside the catch;
   it runs and takes what the search and the unwind say, and an uncaught one changes nothing.
   */
  lemma StepMeans(r: Run, e: Event, sub: Subclass)
    requires ValidStack(r.stack) && Enabled(r, e)
    ensures var r' := Step(r, e, sub);
      match e
      case Called(table) =>
        |r'.stack| == |r.stack| + 1 && r'.stack[1..] == r.stack && SameInside(Frame(r.next, table, -1), r'.stack[0], {})
      case Returned => r'.stack == r.stack[1..]
      case Entered(index) => InnermostInside(r.stack, r'.stack, Regions(r.stack[0]) + {index})
      case Left =>
        InnermostInside(r.stack, r'.stack, Regions(r.stack[0]) - {r.stack[0].start})
      case Thrown(c) => ThrowMeans(r, r', c, sub)
  {
    match e
    case Called(table) =>
    case Returned =>
    case Entered(index) => EnteredRegions(r.stack[0], index);
    case Left => LeftRegions(r.stack[0], r.stack[0].start);
    case Thrown(c) => ThrownRegions(r, c, sub);
  }

  ghost predicate ThrowMeans(r: Run, r': Run, c: Class, sub: Subclass)
    requires ValidStack(r.stack)
  {
    var s := SearchStack(r.stack, c, sub);
    if s.None? then r' == r
    else
      var (depth, index, block) := s.value;
      && |r'.stack| == |r.stack| - depth && r'.stack[1..] == r.stack[depth + 1..]
      && SameInside(r.stack[depth], r'.stack[0], set j | j in Regions(r.stack[depth]) && j < index)
      && r'.ran == r.ran + EntriesOf(r.stamps, TwoPhase(r.stack, c, sub).calls)
      && r'.caught == r.caught + [EntryOf(r.stamps, r.stack[depth].bp, index)]
  }

  lemma EnteredRegions(f: Frame, index: int)
    requires ValidFrame(f) && 0 <= index < |f.table| && f.table[index].prevIndex == f.start
    ensures Regions(f.(start := index)) == Regions(f) + {index}
  {
  }

  /** Leaving the catch or the region `index` leaves the regions outside it. */
  lemma LeftRegions(f: Frame, index: int)
    requires ValidFrame(f) && 0 <= index < |f.table| && OnChain(f.table, f.start, index)
    ensures var f' := f.(start := f.table[index].prevIndex);
      && ValidFrame(f') && Regions(f') == (set j | j in Regions(f) && j < index)
      && (index == f.start ==> Regions(f') == Regions(f) - {index})
  {
    forall j | 0 <= j < |f.table|
      ensures OnChain(f.table, f.table[index].prevIndex, j) <==> OnChain(f.table, f.start, j) && j < index
      ensures OnChain(f.table, f.start, j) ==> j <= f.start
    {
      ChainBehind(f.table, f.start, index, j);
      if OnChain(f.table, f.start, j) {
        ChainIsBelow(f.table, f.start, j);
      }
    }
  }

  lemma ThrownRegions(r: Run, c: Class, sub: Subclass)
    requires ValidStack(r.stack)
    ensures ThrowMeans(r, Step(r, Thrown(c), sub), c, sub)
  {
    var s := SearchStack(r.stack, c, sub);
    if s.Some? {
      SearchStackFindsInnermost(r.stack, c, sub);
      LeftRegions(r.stack[s.value.0], s.value.1);
    }
  }

  // ---------------------------------------------------------------- the invariant

  /** The region of handler `j` in frame `f` is entered, and dispatch has neither run nor taken it. */
  ghost predicate Unused(r: Run, f: Frame, j: int) {
    && (f.bp, j) in r.stamps
    && EntryOf(r.stamps, f.bp, j) !in r.ran
    && EntryOf(r.stamps, f.bp, j) !in r.caught
  }

  ghost predicate Fresh(r: Run, f: Frame)
    requires ValidFrame(f)
  {
    forall j | 0 <= j < |f.table| && OnChain(f.table, f.start, j) :: Unused(r, f, j)
  }

  ghost predicate DistinctFrames(fs: seq<Frame>) {
    forall a, b | 0 <= a < b < |fs| :: fs[a].bp != fs[b].bp
  }

  ghost predicate Inv(r: Run) {
    && ValidStack(r.stack)
    && DistinctFrames(r.stack)
    && (forall k | 0 <= k < |r.stack| :: r.stack[k].bp < r.next && Fresh(r, r.stack[k]))
    && (forall key | key in r.stamps :: r.stamps[key] < r.next)
    && (forall e | e in r.ran :: e.stamp < r.next)
    && (forall e | e in r.caught :: e.stamp < r.next)
    && NoDuplicates(r.ran) && NoDuplicates(r.caught)
  }

  /** A finally of this frame that is still pending. */
  ghost predicate PendingAt(f: Frame, call: Call)
    requires ValidFrame(f)
  {
    IsPending(f.bp, f.table, f.start, -1, call)
  }

  /** A finally that is still pending somewhere in the given frames. */
  ghost predicate PendingIn(fs: seq<Frame>, call: Call)
    requires ValidStack(fs)
  {
    exists k | 0 <= k < |fs| :: PendingAt(fs[k], call)
  }

  lemma {:induction false} UnwindAllRunsPending(fs: seq<Frame>)
    requires ValidStack(fs) && DistinctFrames(fs)
    ensures NoDuplicates(UnwindAll(fs))
    ensures forall call :: call in UnwindAll(fs) <==> PendingIn(fs, call)
    decreases |fs|
  {
    if fs != [] {
      var f := fs[0];
      var own, rest := Unwind(f.bp, f.table, f.start, -1), UnwindAll(fs[1..]);
      UnwindRunsPending(f.bp, f.table, f.start, -1);
      UnwindAllRunsPending(fs[1..]);
      forall call ensures call in UnwindAll(fs) <==> PendingIn(fs, call) {
        assert call in UnwindAll(fs) <==> call in own || call in rest;
        if call in rest {
          var k :| 0 <= k < |fs[1..]| && PendingAt(fs[1..][k], call);
          assert fs[1..][k] == fs[k + 1];
        }
        if PendingIn(fs, call) {
          var k :| 0 <= k < |fs| && PendingAt(fs[k], call);
          if k > 0 {
            assert fs[1..][k - 1] == fs[k];
          }
        }
      }
      assert forall call | call in own :: call !in rest;
      ConcatHasNoDuplicates(own, rest);
    }
  }

  /** Inner frames are unwound before outer ones. */
  lemma {:induction false} UnwindAllInOrder(inner: seq<Frame>, outer: seq<Frame>)
    requires ValidStack(inner) && ValidStack(outer)
    ensures UnwindAll(inner + outer) == UnwindAll(inner) + UnwindAll(outer)
  {
    if inner == [] {
      assert inner + outer == outer;
    } else {
      var f := inner[0];
      assert (inner + outer)[1..] == inner[1..] + outer;
      UnwindAllInOrder(inner[1..], outer);
      Associative(Unwind(f.bp, f.table, f.start, -1), UnwindAll(inner[1..]), UnwindAll(outer));
    }
  }

  /**
   A caught throw runs exactly the finally blocks pending inside the chosen catch: all of the frames
   within, and of the catching frame those on the chain before the catch.  None of them runs twice.
   */
  lemma ThrowRunsWhatWasPending(fs: seq<Frame>, c: Class, sub: Subclass)
    requires ValidStack(fs) && DistinctFrames(fs)
    requires SearchStack(fs, c, sub).Some?
    ensures var (depth, index, block) := SearchStack(fs, c, sub).value;
      && NoDuplicates(TwoPhase(fs, c, sub).calls)
      && forall call :: call in TwoPhase(fs, c, sub).calls <==>
           || PendingIn(fs[..depth], call)
           || IsPending(fs[depth].bp, fs[depth].table, fs[depth].start, index, call)
  {
    var (depth, index, block) := SearchStack(fs, c, sub).value;
    var f := fs[depth];
    SearchStackFindsInnermost(fs, c, sub);
    UnwindAllRunsPending(fs[..depth]);
    UnwindRunsPending(f.bp, f.table, f.start, index);
    var own, inner := Unwind(f.bp, f.table, f.start, index), UnwindAll(fs[..depth]);
    assert forall call :: call in TwoPhase(fs, c, sub).calls <==> call in inner || call in own;
    forall call | call in inner ensures call !in own {
      var k :| 0 <= k < |fs[..depth]| && PendingAt(fs[..depth][k], call);
      assert fs[..depth][k] == fs[k];
    }
    ConcatHasNoDuplicates(inner, own);
  }

  // ---------------------------------------------------------------- every step keeps it

  lemma KeepsFresh(r: Run, r': Run, f: Frame, f': Frame)
    requires ValidFrame(f) && ValidFrame(f') && Fresh(r, f)
    requires f'.bp == f.bp && f'.table == f.table
    requires f'.start == -1 || f'.start == f.start || OnChain(f.table, f.start, f'.start)
    requires forall j | 0 <= j < |f.table| && OnChain(f.table, f'.start, j) && Unused(r, f, j) :: Unused(r', f', j)
    ensures Fresh(r', f')
  {
    forall j | 0 <= j < |f'.table| && OnChain(f'.table, f'.start, j) ensures Unused(r', f', j) {
      if f'.start != f.start {
        ChainIsTransitive(f.table, f.start, f'.start, j);
      }
      assert Unused(r, f, j);
    }
  }

  lemma PrevIsOnChain(t: seq<Handler>, i: int)
    requires ValidTable(t) && 0 <= i < |t|
    ensures t[i].prevIndex == -1 || OnChain(t, i, t[i].prevIndex)
  {
  }

  lemma QuietStepKeepsInv(r: Run, e: Event, sub: Subclass)
    requires Inv(r) && Enabled(r, e) && !e.Thrown?
    ensures Inv(Step(r, e, sub))
  {
    match e
    case Called(table) => CallKeepsInv(r, table, sub);
    case Returned => ReturnKeepsInv(r, sub);
    case Entered(index) => EntryKeepsInv(r, index, sub);
    case Left => LeavingKeepsInv(r, sub);
  }

  lemma CallKeepsInv(r: Run, table: seq<Handler>, sub: Subclass)
    requires Inv(r) && ValidTable(table)
    ensures Inv(Step(r, Called(table), sub))
  {
    var r' := Step(r, Called(table), sub);
    forall k | 0 <= k < |r'.stack| ensures Fresh(r', r'.stack[k]) {
      if k > 0 {
        assert r'.stack[k] == r.stack[k - 1];
        KeepsFresh(r, r', r.stack[k - 1], r'.stack[k]);
      }
    }
  }

  lemma ReturnKeepsInv(r: Run, sub: Subclass)
    requires Inv(r) && r.stack != []
    ensures Inv(Step(r, Returned, sub))
  {
    var r' := Step(r, Returned, sub);
    forall k | 0 <= k < |r'.stack| ensures Fresh(r', r'.stack[k]) {
      KeepsFresh(r, r', r.stack[k + 1], r'.stack[k]);
    }
  }

  lemma EntryKeepsInv(r: Run, index: int, sub: Subclass)
    requires Inv(r) && Enabled(r, Entered(index))
    ensures Inv(Step(r, Entered(index), sub))
  {
    var r' := Step(r, Entered(index), sub);
    var f, f' := r.stack[0], r'.stack[0];
    forall j | 0 <= j < |f'.table| && OnChain(f'.table, f'.start, j) ensures Unused(r', f', j) {
      if j != index {
        ChainIsBelow(f.table, f.start, j);
        assert Unused(r, f, j);
      }
    }
    forall k | 0 < k < |r'.stack| ensures Fresh(r', r'.stack[k]) {
      assert r'.stack[k] == r.stack[k] && r.stack[k].bp != f.bp;
      KeepsFresh(r, r', r.stack[k], r'.stack[k]);
    }
  }

  lemma LeavingKeepsInv(r: Run, sub: Subclass)
    requires Inv(r) && Enabled(r, Left)
    ensures Inv(Step(r, Left, sub))
  {
    var r', f := Step(r, Left, sub), r.stack[0];
    PrevIsOnChain(f.table, f.start);
    forall k | 0 <= k < |r'.stack| ensures Fresh(r', r'.stack[k]) {
      KeepsFresh(r, r', r.stack[k], r'.stack[k]);
    }
  }

  lemma ThrowKeepsInv(r: Run, c: Class, sub: Subclass)
    requires Inv(r) && Enabled(r, Thrown(c))
    ensures Inv(Step(r, Thrown(c), sub))
  {
    var s := SearchStack(r.stack, c, sub);
    if s.Some? {
      var (depth, index, block) := s.value;
      var r' := Step(r, Thrown(c), sub);
      SearchStackFindsInnermost(r.stack, c, sub);
      assert Unused(r, r.stack[depth], index);
      ThrowLogsOnce(r, c, sub);
      SurvivorsAreFresh(r, c, sub, r', depth);
    }
  }

  lemma SurvivorsAreFresh(r: Run, c: Class, sub: Subclass, r': Run, depth: nat)
    requires Inv(r) && SearchStack(r.stack, c, sub).Some? && r' == Step(r, Thrown(c), sub)
    requires depth == SearchStack(r.stack, c, sub).value.0
    ensures ValidStack(r'.stack) && DistinctFrames(r'.stack)
    ensures forall k | 0 <= k < |r'.stack| :: r'.stack[k].bp < r.next && Fresh(r', r'.stack[k])
  {
    forall k | 0 <= k < |r'.stack| ensures ValidFrame(r'.stack[k]) && Fresh(r', r'.stack[k]) {
      SurvivorIsFresh(r, c, sub, k);
    }
    SurvivorsKeepPlace(r.stack, r'.stack, depth, SearchStack(r.stack, c, sub).value.1, r.next);
  }

  lemma SurvivorsKeepPlace(fs: seq<Frame>, fs': seq<Frame>, depth: nat, index: int, next: nat)
    requires depth < |fs| && DistinctFrames(fs) && fs' == CatchTaken(fs, depth, index)[depth..]
    requires forall k | 0 <= k < |fs| :: fs[k].bp < next
    ensures DistinctFrames(fs') && forall k | 0 <= k < |fs'| :: fs'[k].bp < next
  {
    forall k | 0 <= k < |fs'| ensures fs'[k].bp == fs[depth + k].bp {
    }
  }

  lemma ThrowLogsOnce(r: Run, c: Class, sub: Subclass)
    requires Inv(r) && SearchStack(r.stack, c, sub).Some?
    ensures var ran := Step(r, Thrown(c), sub).ran;
      NoDuplicates(ran) && forall e | e in ran :: e.stamp < r.next
  {
    var calls := TwoPhase(r.stack, c, sub).calls;
    var added := EntriesOf(r.stamps, calls);
    ThrowRunsWhatWasPending(r.stack, c, sub);
    forall m | 0 <= m < |calls| ensures LiveEntry(r, calls[m]) {
      assert calls[m] in calls;
      CallIsLive(r, c, sub, calls[m]);
    }
    forall a, b | 0 <= a < b < |added| ensures added[a] != added[b] {
      CallsWithOneEntry(r, calls[a], calls[b]);
    }
    ConcatHasNoDuplicates(r.ran, added);
  }

  ghost predicate LiveEntry(r: Run, call: Call)
    requires ValidStack(r.stack)
  {
    exists k | 0 <= k < |r.stack| ::
      PendingAt(r.stack[k], call) && Unused(r, r.stack[k], call.index)
  }

  lemma CallIsLive(r: Run, c: Class, sub: Subclass, call: Call)
    requires Inv(r) && SearchStack(r.stack, c, sub).Some?
    requires call in TwoPhase(r.stack, c, sub).calls
    ensures LiveEntry(r, call)
  {
    var fs := r.stack;
    var (depth, index, block) := SearchStack(fs, c, sub).value;
    ThrowRunsWhatWasPending(fs, c, sub);
    SearchStackFindsInnermost(fs, c, sub);
    if PendingIn(fs[..depth], call) {
      var k :| 0 <= k < |fs[..depth]| && PendingAt(fs[..depth][k], call);
      assert fs[..depth][k] == fs[k];
      assert Unused(r, fs[k], call.index);
    } else {
      assert Unused(r, fs[depth], call.index);
    }
  }

  lemma CallsWithOneEntry(r: Run, x: Call, y: Call)
    requires Inv(r) && LiveEntry(r, x) && LiveEntry(r, y)
    ensures EntryOf(r.stamps, x.bp, x.index) == EntryOf(r.stamps, y.bp, y.index) ==> x == y
  {
  }

  /** No finally that a throw runs is on the remaining chain of a surviving frame. */
  lemma CallIsNotSurvivors(r: Run, c: Class, sub: Subclass, k: nat, j: int, call: Call)
    requires Inv(r) && SearchStack(r.stack, c, sub).Some? && call in TwoPhase(r.stack, c, sub).calls
    requires var (depth, index, block) := SearchStack(r.stack, c, sub).value;
      depth + k < |r.stack| && (k == 0 ==> j < index) && (r.stack[depth + k].bp, j) in r.stamps
    ensures var g := r.stack[SearchStack(r.stack, c, sub).value.0 + k];
      EntryOf(r.stamps, call.bp, call.index) != EntryOf(r.stamps, g.bp, j)
  {
    var fs := r.stack;
    var (depth, index, block) := SearchStack(fs, c, sub).value;
    ThrowRunsWhatWasPending(fs, c, sub);
    if PendingIn(fs[..depth], call) {
      var i :| 0 <= i < |fs[..depth]| && PendingAt(fs[..depth][i], call);
      assert fs[..depth][i] == fs[i];
    }
  }

  lemma SurvivorIsFresh(r: Run, c: Class, sub: Subclass, k: nat)
    requires Inv(r) && SearchStack(r.stack, c, sub).Some?
    requires k < |Step(r, Thrown(c), sub).stack|
    ensures var r' := Step(r, Thrown(c), sub); ValidFrame(r'.stack[k]) && Fresh(r', r'.stack[k])
  {
    var fs := r.stack;
    var (depth, index, block) := SearchStack(fs, c, sub).value;
    var r' := Step(r, Thrown(c), sub);
    var calls := TwoPhase(fs, c, sub).calls;
    SearchStackFindsInnermost(fs, c, sub);
    var g, g' := fs[depth + k], r'.stack[k];
    PrevIsOnChain(fs[depth].table, index);
    if k == 0 && g'.start != -1 {
      ChainIsTransitive(g.table, g.start, index, g'.start);
    }
    forall j | 0 <= j < |g.table| && OnChain(g.table, g'.start, j) && Unused(r, g, j) ensures Unused(r', g', j) {
      ChainIsBelow(g.table, g'.start, j);
      forall m | 0 <= m < |calls| ensures EntryOf(r.stamps, calls[m].bp, calls[m].index) != EntryOf(r.stamps, g.bp, j) {
        assert calls[m] in calls;
        CallIsNotSurvivors(r, c, sub, k, j, calls[m]);
      }
    }
    KeepsFresh(r, r', g, g');
  }

  // ---------------------------------------------------------------- over every run

  /** The states a run may reach by a list of events, each enabled when it happens. */
  ghost predicate IsRun(events: seq<Event>, states: seq<Run>, sub: Subclass) {
    && |states| == |events| + 1
    && states[0] == START
    && forall k | 0 <= k < |events| :: Enabled(states[k], events[k]) && states[k + 1] == Step(states[k], events[k], sub)
  }

  /**
   In every run, dispatch runs the finally block of each entered region at most once and takes the catch
   of each entered region at most once, however many exceptions are thrown; and what remains on the
   handler chains of live frames has been neither run nor taken.
   */
  lemma {:induction false} EachEntryIsUsedOnce(events: seq<Event>, states: seq<Run>, sub: Subclass, k: nat)
    requires IsRun(events, states, sub) && k < |states|
    ensures Inv(states[k])
    ensures NoDuplicates(states[k].ran) && NoDuplicates(states[k].caught)
    decreases k
  {
    if k == 0 {
    } else {
      EachEntryIsUsedOnce(events, states, sub, k - 1);
      if events[k - 1].Thrown? {
        ThrowKeepsInv(states[k - 1], events[k - 1].c, sub);
      } else {
        QuietStepKeepsInv(states[k - 1], events[k - 1], sub);
      }
    }
  }
}
