/**
 The handshake of the condition variable tests (example/synchronization/condition.d:61-139, 198-290), as the
 interleaved steps of a main thread and any number of test threads sharing a mutex, a condition variable and
 the counter `waiting`.
 */
module ConditionProtocol {
  /** Where a test thread stands. */
  datatype Worker =
    | Start        // waiting for the mutex
    | Counting     // about to raise the counter
    | Checking     // about to look whether the main thread has raised it too
    | Waiting      // in the wait set, without the mutex
    | Reacquiring  // woken, not yet holding the mutex again
    | Leaving      // about to release the mutex
    | Done

  /** Where the main thread stands. */
  datatype Main =
    | AwaitPoll    // in the polling loop, waiting for the mutex
    | Polling      // about to look whether all test threads have counted themselves
    | Yielding     // not all: about to release the mutex and go round
    | Breaking     // all: about to release the mutex and leave the loop
    | AwaitSignal  // waiting for the mutex once more
    | Raising      // about to raise the counter
    | Notifying    // about to notify
    | Releasing    // about to release the mutex
    | Joining      // waiting for the test threads to end
    | Finished(passed: bool)

  datatype Holder = Nobody | TheMain | TheWorker(i: nat)

  /** `all` tells which of the two tests runs. */
  datatype State = State(all: bool, holder: Holder, waiting: nat, main: Main, workers: seq<Worker>)

  /** A step of test thread `i`, a wakeup of it that nobody asked for, or a step of the main thread. */
  datatype Action = Work(i: nat) | Spurious(i: nat) | GoMain

  function Initial(all: bool, count: nat): State {
    State(all, Nobody, 0, AwaitPoll, seq(count, _ => Start))
  }

  predicate Enabled(s: State, a: Action) {
    match a
    case Work(i) =>
      && i < |s.workers|
      && !s.workers[i].Waiting? && !s.workers[i].Done?
      && (s.workers[i].Start? || s.workers[i].Reacquiring? ==> s.holder.Nobody?)
    case Spurious(i) => i < |s.workers| && s.workers[i].Waiting?
    case GoMain =>
      && !s.main.Finished?
      && (s.main.AwaitPoll? || s.main.AwaitSignal? ==> s.holder.Nobody?)
      && (s.main.Joining? ==> forall i | 0 <= i < |s.workers| :: s.workers[i].Done?)
  }

  function Put(s: State, i: nat, w: Worker): State
    requires i < |s.workers|
  {
    s.(workers := s.workers[i := w])
  }

  function Apply(s: State, a: Action): State
    requires Enabled(s, a)
  {
    match a
    case Work(i) => WorkerStep(s, i)
    case Spurious(i) => Put(s, i, Reacquiring)
    case GoMain => MainStep(s)
  }

  function WorkerStep(s: State, i: nat): State
    requires i < |s.workers|
  {
    match s.workers[i]
    case Start => Put(s.(holder := TheWorker(i)), i, Counting)
    case Counting => Put(s.(waiting := s.waiting + 1), i, Checking)
    case Checking =>
      if s.waiting != |s.workers| + 1 then Put(s.(holder := Nobody), i, Waiting) else Put(s, i, Leaving)
    case Reacquiring => Put(s.(holder := TheWorker(i)), i, Checking)
    case Leaving => Put(s.(holder := Nobody), i, Done)
    case _ => s
  }

  function MainStep(s: State): State {
    match s.main
    case AwaitPoll => s.(holder := TheMain, main := Polling)
    case Polling => s.(main := if s.waiting != |s.workers| then Yielding else Breaking)
    case Yielding => s.(holder := Nobody, main := AwaitPoll)
    case Breaking => s.(holder := Nobody, main := AwaitSignal)
    case AwaitSignal => s.(holder := TheMain, main := Raising)
    case Raising => s.(waiting := s.waiting + 1, main := Notifying)
    case Notifying => s.(workers := if s.all then WakeAll(s.workers) else WakeOne(s.workers), main := Releasing)
    case Releasing => s.(holder := Nobody, main := Joining)
    case Joining => s.(main := Finished(s.waiting == |s.workers| + 1))
    case Finished(_) => s
  }

  function WakeAll(ws: seq<Worker>): (r: seq<Worker>)
    ensures |r| == |ws|
    ensures forall i | 0 <= i < |ws| :: r[i] == if ws[i].Waiting? then Reacquiring else ws[i]
  {
    seq(|ws|, i requires 0 <= i < |ws| => if ws[i].Waiting? then Reacquiring else ws[i])
  }

  /** Wakes the first thread of the wait set, if there is one. */
  function WakeOne(ws: seq<Worker>): seq<Worker> {
    if ws == [] then []
    else if ws[0].Waiting? then [Reacquiring] + ws[1..]
    else [ws[0]] + WakeOne(ws[1..])
  }

  // ---------------------------------------------------------------- sums over the test threads

  function Total(ws: seq<Worker>, f: Worker -> nat): nat {
    if ws == [] then 0 else Total(ws[..|ws| - 1], f) + f(ws[|ws| - 1])
  }

  lemma {:induction false} TotalAfterUpdate(ws: seq<Worker>, f: Worker -> nat, i: nat, w: Worker)
    requires i < |ws|
    ensures Total(ws[i := w], f) == Total(ws, f) - f(ws[i]) + f(w)
  {
    var n := |ws| - 1;
    if i == n {
      assert ws[i := w][..n] == ws[..n];
    } else {
      assert ws[i := w][..n] == ws[..n][i := w];
      TotalAfterUpdate(ws[..n], f, i, w);
    }
  }

  /** 1 for a thread that has counted itself. */
  function Counted(w: Worker): nat {
    if w.Start? || w.Counting? then 0 else 1
  }

  lemma {:induction false} CountedBounded(ws: seq<Worker>)
    ensures Total(ws, Counted) <= |ws|
    ensures Total(ws, Counted) == |ws| <==> forall i | 0 <= i < |ws| :: Counted(ws[i]) == 1
  {
    if ws != [] {
      var n := |ws| - 1;
      CountedBounded(ws[..n]);
      assert forall i | 0 <= i < n :: ws[..n][i] == ws[i];
    }
  }

  /** The steps a test thread still has to take once it has been notified. */
  function StepsLeft(w: Worker): nat {
    match w
    case Start => 0 case Counting => 0 case Waiting => 0
    case Reacquiring => 3 case Checking => 2 case Leaving => 1 case Done => 0
  }

  function MainStepsLeft(m: Main): nat {
    match m
    case Releasing => 2 case Joining => 1 case _ => 0
  }

  // ---------------------------------------------------------------- the invariant

  predicate WorkerHolds(w: Worker) {
    w.Counting? || w.Checking? || w.Leaving?
  }

  predicate MainHolds(m: Main) {
    m.Polling? || m.Yielding? || m.Breaking? || m.Raising? || m.Notifying? || m.Releasing?
  }

  /** The main thread has left the polling loop. */
  predicate SawAll(m: Main) {
    m.Breaking? || m.AwaitSignal? || m.Raising? || Raised(m)
  }

  predicate Raised(m: Main) {
    m.Notifying? || Notified(m)
  }

  predicate Notified(m: Main) {
    m.Releasing? || m.Joining? || m.Finished?
  }

  /** What holds for test thread `i`. */
  predicate WorkerOk(s: State, i: nat)
    requires i < |s.workers|
  {
    var w := s.workers[i];
    && (WorkerHolds(w) <==> s.holder == TheWorker(i))
    && (SawAll(s.main) ==> Counted(w) == 1)
    && (w.Leaving? || w.Done? ==> Notified(s.main))
    && (Notified(s.main) ==> !w.Waiting?)
  }

  ghost predicate Inv(s: State) {
    && (forall i | 0 <= i < |s.workers| :: WorkerOk(s, i))
    && (MainHolds(s.main) <==> s.holder == TheMain)
    && (s.holder.TheWorker? ==> s.holder.i < |s.workers|)
    && s.waiting == Total(s.workers, Counted) + (if Raised(s.main) then 1 else 0)
    && (s.main.Finished? ==> s.main.passed && forall i | 0 <= i < |s.workers| :: s.workers[i].Done?)
    && (s.all || |s.workers| == 1)
  }

  lemma {:induction false} InitialInv(all: bool, count: nat)
    requires all || count == 1
    ensures Inv(Initial(all, count))
  {
    NobodyCounted(Initial(all, count).workers);
  }

  lemma {:induction false} NobodyCounted(ws: seq<Worker>)
    requires forall w | w in ws :: w.Start?
    ensures Total(ws, Counted) == 0
  {
    if ws != [] {
      NobodyCounted(ws[..|ws| - 1]);
    }
  }

  /** At most one count for each thread, and all of them once the polling has ended. */
  lemma AllCounted(s: State)
    requires Inv(s)
    ensures Total(s.workers, Counted) <= |s.workers|
    ensures Total(s.workers, Counted) == |s.workers| <==> forall i | 0 <= i < |s.workers| :: Counted(s.workers[i]) == 1
    ensures SawAll(s.main) ==> Total(s.workers, Counted) == |s.workers|
  {
    CountedBounded(s.workers);
    forall i | 0 <= i < |s.workers| && SawAll(s.main) ensures Counted(s.workers[i]) == 1 {
      assert WorkerOk(s, i);
    }
  }

  lemma StepKeepsInv(s: State, a: Action)
    requires Inv(s) && Enabled(s, a)
    ensures Inv(Apply(s, a))
  {
    match a
    case GoMain => MainKeepsInv(s);
    case Work(i) => WorkerKeepsInv(s, i);
    case Spurious(i) => SpuriousKeepsInv(s, i);
  }

  lemma SpuriousKeepsInv(s: State, i: nat)
    requires Inv(s) && Enabled(s, Spurious(i))
    ensures Inv(Put(s, i, Reacquiring))
  {
    var s' := Put(s, i, Reacquiring);
    TotalAfterUpdate(s.workers, Counted, i, Reacquiring);
    forall j | 0 <= j < |s'.workers| ensures WorkerOk(s', j) {
      assert WorkerOk(s, j);
    }
  }

  lemma WorkerKeepsInv(s: State, i: nat)
    requires Inv(s) && Enabled(s, Work(i))
    ensures Inv(WorkerStep(s, i))
  {
    var s' := WorkerStep(s, i);
    AllCounted(s);
    assert WorkerOk(s, i);
    TotalAfterUpdate(s.workers, Counted, i, s'.workers[i]);
    forall j | 0 <= j < |s'.workers| ensures WorkerOk(s', j) {
      assert WorkerOk(s, j);
    }
  }

  lemma MainKeepsInv(s: State)
    requires Inv(s) && Enabled(s, GoMain)
    ensures Inv(MainStep(s))
  {
    if s.main.Notifying? {
      NotifyKeepsInv(s);
    } else {
      forall j | 0 <= j < |s.workers| ensures WorkerOk(MainStep(s), j) {
        MainKeepsWorker(s, j);
      }
      MainKeepsCounter(s);
    }
  }

  lemma MainKeepsWorker(s: State, j: nat)
    requires Inv(s) && Enabled(s, GoMain) && !s.main.Notifying? && j < |s.workers|
    ensures WorkerOk(MainStep(s), j)
  {
    AllCounted(s);
    assert WorkerOk(s, j);
  }

  lemma MainKeepsCounter(s: State)
    requires Inv(s) && Enabled(s, GoMain) && !s.main.Notifying?
    ensures var s' := MainStep(s);
      && s'.workers == s.workers && (MainHolds(s'.main) <==> s'.holder == TheMain)
      && s'.waiting == Total(s'.workers, Counted) + (if Raised(s'.main) then 1 else 0)
      && (s'.main.Finished? ==> s'.main.passed && forall i | 0 <= i < |s'.workers| :: s'.workers[i].Done?)
  {
    AllCounted(s);
  }

  lemma NotifyKeepsInv(s: State)
    requires Inv(s) && s.main.Notifying?
    ensures Inv(MainStep(s))
  {
    var s' := MainStep(s);
    WokenAreAll(s);
    WakingKeepsTotal(s.workers, WakeAll(s.workers));
    forall j | 0 <= j < |s'.workers| ensures WorkerOk(s', j) {
      assert WorkerOk(s, j);
    }
  }

  /** With one test thread, waking one is waking all. */
  lemma WokenAreAll(s: State)
    requires s.all || |s.workers| == 1
    ensures (if s.all then WakeAll(s.workers) else WakeOne(s.workers)) == WakeAll(s.workers)
  {
    if !s.all {
      assert s.workers == [s.workers[0]];
    }
  }

  lemma {:induction false} WakingKeepsTotal(ws: seq<Worker>, woken: seq<Worker>)
    requires |woken| == |ws| && forall i | 0 <= i < |ws| :: Counted(woken[i]) == Counted(ws[i])
    ensures Total(woken, Counted) == Total(ws, Counted)
  {
    if ws != [] {
      WakingKeepsTotal(ws[..|ws| - 1], woken[..|ws| - 1]);
    }
  }

  lemma StepKeepsCount(s: State, a: Action)
    requires Enabled(s, a)
    ensures |Apply(s, a).workers| == |s.workers|
  {
    WakeOneKeepsCount(s.workers);
  }

  lemma {:induction false} WakeOneKeepsCount(ws: seq<Worker>)
    ensures |WakeOne(ws)| == |ws|
  {
    if ws != [] {
      WakeOneKeepsCount(ws[1..]);
    }
  }

  // ---------------------------------------------------------------- every run

  ghost predicate IsRun(all: bool, count: nat, actions: seq<Action>, states: seq<State>) {
    && |states| == |actions| + 1
    && states[0] == Initial(all, count)
    && forall k | 0 <= k < |actions| :: Enabled(states[k], actions[k]) && states[k + 1] == Apply(states[k], actions[k])
  }

  lemma {:induction false} RunKeepsInv(all: bool, count: nat, actions: seq<Action>, states: seq<State>, k: nat)
    requires IsRun(all, count, actions, states) && k < |states| && (all || count == 1)
    ensures Inv(states[k]) && |states[k].workers| == count
    decreases k
  {
    if k == 0 {
      InitialInv(all, count);
    } else {
      RunKeepsInv(all, count, actions, states, k - 1);
      StepKeepsInv(states[k - 1], actions[k - 1]);
      StepKeepsCount(states[k - 1], actions[k - 1]);
    }
  }

  /** The main thread keeps polling exactly while some test thread has not counted itself. */
  lemma PollFailsIffSomeoneIsMissing(all: bool, count: nat, actions: seq<Action>, states: seq<State>, k: nat)
    requires IsRun(all, count, actions, states) && k < |actions| && (all || count == 1)
    requires states[k].main.Polling? && actions[k].GoMain?
    ensures states[k + 1].main.Yielding? <==> exists w :: w in states[k].workers && w.Start?
  {
    var s := states[k];
    RunKeepsInv(all, count, actions, states, k);
    AllCounted(s);
    forall i | 0 <= i < |s.workers| ensures !s.workers[i].Counting? {
      assert WorkerOk(s, i);
    }
  }

  /**
   In every run, spurious wakeups included: when the main thread notifies, every test thread is waiting or
   re-acquiring the mutex; afterwards no thread is in the wait set or enters it; and the final check passes.
   */
  lemma NoWakeupIsLost(all: bool, count: nat, actions: seq<Action>, states: seq<State>, k: nat)
    requires IsRun(all, count, actions, states) && k < |states| && (all || count == 1)
    ensures states[k].main.Notifying? ==>
      forall w | w in states[k].workers :: w.Waiting? || w.Reacquiring?
    ensures Notified(states[k].main) ==> forall w | w in states[k].workers :: !w.Waiting?
    ensures states[k].main.Finished? ==>
      && states[k].main.passed && states[k].waiting == |states[k].workers| + 1 == count + 1
      && forall w | w in states[k].workers :: w.Done?
  {
    var s := states[k];
    RunKeepsInv(all, count, actions, states, k);
    AllCounted(s);
    forall i | 0 <= i < count
      ensures s.main.Notifying? ==> s.workers[i].Waiting? || s.workers[i].Reacquiring?
      ensures Notified(s.main) ==> !s.workers[i].Waiting?
    {
      assert WorkerOk(s, i);
    }
  }

  lemma SomeStep(s: State) returns (a: Action)
    requires Inv(s) && !s.main.Finished?
    ensures Enabled(s, a) && !a.Spurious?
  {
    a := GoMain;
    if s.holder.TheWorker? {
      assert WorkerOk(s, s.holder.i);
      a := Work(s.holder.i);
    } else if s.main.Joining? && !Enabled(s, GoMain) {
      var i :| 0 <= i < |s.workers| && !s.workers[i].Done?;
      assert WorkerOk(s, i);
      a := Work(i);
    }
  }

  /** Some step other than a spurious wakeup is always possible, until the main thread has finished. */
  lemma NeverStuck(all: bool, count: nat, actions: seq<Action>, states: seq<State>, k: nat)
    requires IsRun(all, count, actions, states) && k < |states| && (all || count == 1)
    requires !states[k].main.Finished?
    ensures Enabled(states[k], GoMain) || exists i :: Enabled(states[k], Work(i))
  {
    RunKeepsInv(all, count, actions, states, k);
    var a := SomeStep(states[k]);
    assert a.GoMain? || Enabled(states[k], Work(a.i));
  }

  /** How many steps are left once the main thread has notified. */
  function Measure(s: State): nat {
    Total(s.workers, StepsLeft) + MainStepsLeft(s.main)
  }

  /** After the notification every step brings the end nearer, so every schedule reaches it. */
  lemma EveryStepHelps(all: bool, count: nat, actions: seq<Action>, states: seq<State>, k: nat)
    requires IsRun(all, count, actions, states) && k < |actions| && (all || count == 1)
    requires Notified(states[k].main)
    ensures Notified(states[k + 1].main) && Measure(states[k + 1]) == Measure(states[k]) - 1
  {
    RunKeepsInv(all, count, actions, states, k);
    StepHelps(states[k], actions[k]);
  }

  lemma StepHelps(s: State, a: Action)
    requires Inv(s) && Enabled(s, a) && Notified(s.main)
    ensures Notified(Apply(s, a).main) && Measure(Apply(s, a)) == Measure(s) - 1
  {
    if !a.GoMain? {
      assert WorkerOk(s, a.i);
      AllCounted(s);
      TotalAfterUpdate(s.workers, StepsLeft, a.i, Apply(s, a).workers[a.i]);
    }
  }

  // ---------------------------------------------------------------- from everywhere to the end

  /** The steps a test thread takes until it waits for the first time. */
  function StepsToWait(w: Worker): nat {
    match w
    case Start => 3 case Counting => 2 case Checking => 1 case _ => 0
  }

  predicate AnyStart(ws: seq<Worker>) {
    exists i | 0 <= i < |ws| :: ws[i].Start?
  }

  /** How far the main thread is from notifying, or from polling in vain again. */
  function Rank(m: Main, missing: bool): nat {
    match m
    case Yielding => if missing then 1 else 7
    case AwaitPoll => if missing then 0 else 6
    case Polling => if missing then 2 else 5
    case Breaking => 4
    case AwaitSignal => 3
    case Raising => 2
    case Notifying => 1
    case _ => 0
  }

  function Load(s: State): nat {
    if Notified(s.main) then Measure(s) else Total(s.workers, StepsToWait)
  }

  /** `s'` is nearer to the end than `s`. */
  predicate Nearer(s': State, s: State) {
    if Notified(s.main) then Notified(s'.main) && Load(s') < Load(s)
    else
      || Notified(s'.main)
      || Load(s') < Load(s)
      || (Load(s') == Load(s) && Rank(s'.main, AnyStart(s'.workers)) < Rank(s.main, AnyStart(s.workers)))
  }

  /** A step that brings the end nearer: test threads that have not counted themselves go before a vain poll. */
  lemma NearerStep(s: State) returns (a: Action)
    requires Inv(s) && !s.main.Finished?
    ensures Enabled(s, a) && !a.Spurious? && Nearer(Apply(s, a), s)
  {
    if Notified(s.main) {
      a := SomeStep(s);
      StepHelps(s, a);
    } else if s.holder.TheWorker? {
      a := Work(s.holder.i);
      WorkerIsNearer(s, s.holder.i);
    } else if s.holder.Nobody? && AnyStart(s.workers) && s.main.AwaitPoll? {
      var i :| 0 <= i < |s.workers| && s.workers[i].Start?;
      a := Work(i);
      WorkerIsNearer(s, i);
    } else {
      a := GoMain;
      MainIsNearer(s);
    }
  }

  lemma WorkerIsNearer(s: State, i: nat)
    requires Inv(s) && !Notified(s.main) && i < |s.workers|
    requires s.holder == TheWorker(i) || (s.holder.Nobody? && s.workers[i].Start?)
    ensures Enabled(s, Work(i)) && Nearer(WorkerStep(s, i), s)
  {
    assert WorkerOk(s, i);
    AllCounted(s);
    TotalAfterUpdate(s.workers, StepsToWait, i, WorkerStep(s, i).workers[i]);
  }

  lemma MainIsNearer(s: State)
    requires Inv(s) && !Notified(s.main) && !s.holder.TheWorker?
    requires !(s.holder.Nobody? && AnyStart(s.workers) && s.main.AwaitPoll?)
    ensures Enabled(s, GoMain) && Nearer(MainStep(s), s)
  {
    AllCounted(s);
    forall i | 0 <= i < |s.workers|
      ensures Counted(s.workers[i]) == if s.workers[i].Start? then 0 else 1
      ensures SawAll(s.main) ==> !s.workers[i].Start?
    {
      assert WorkerOk(s, i);
    }
  }

  lemma GoOn(all: bool, count: nat, actions: seq<Action>, states: seq<State>, a: Action)
    requires IsRun(all, count, actions, states) && Enabled(states[|actions|], a)
    ensures IsRun(all, count, actions + [a], states + [Apply(states[|actions|], a)])
  {
  }

  /** The run goes on with the steps `more`, none of them a spurious wakeup, and ends well. */
  ghost predicate EndsWell(all: bool, count: nat, actions: seq<Action>, states: seq<State>,
          more: seq<Action>, states': seq<State>)
  {
    && IsRun(all, count, actions + more, states') && states <= states'
    && states'[|states'| - 1].main == Finished(true) && forall a | a in more :: !a.Spurious?
  }

  lemma EndsWellAfter(all: bool, count: nat, actions: seq<Action>, states: seq<State>, a: Action, s': State,
          more: seq<Action>, states': seq<State>)
    requires EndsWell(all, count, actions + [a], states + [s'], more, states') && !a.Spurious?
    ensures EndsWell(all, count, actions, states, [a] + more, states')
  {
    assert actions + [a] + more == actions + ([a] + more);
  }

  lemma {:induction false} FinishFrom(all: bool, count: nat, actions: seq<Action>, states: seq<State>, s: State)
    returns (more: seq<Action>, states': seq<State>)
    requires IsRun(all, count, actions, states) && (all || count == 1) && s == states[|actions|]
    ensures EndsWell(all, count, actions, states, more, states')
    decreases !Notified(s.main), Load(s), Rank(s.main, AnyStart(s.workers))
  {
    RunKeepsInv(all, count, actions, states, |actions|);
    if s.main.Finished? {
      assert actions + [] == actions;
      more, states' := [], states;
    } else {
      var a := NearerStep(s);
      GoOn(all, count, actions, states, a);
      more, states' := FinishFrom(all, count, actions + [a], states + [Apply(s, a)], Apply(s, a));
      EndsWellAfter(all, count, actions, states, a, Apply(s, a), more, states');
      more := [a] + more;
    }
  }

  /** Every run can go on, without spurious wakeups, until the main thread has found that all went well. */
  lemma EveryRunCanFinish(all: bool, count: nat, actions: seq<Action>, states: seq<State>)
    requires IsRun(all, count, actions, states) && (all || count == 1)
    ensures exists more, states' :: EndsWell(all, count, actions, states, more, states')
  {
    var more, states' := FinishFrom(all, count, actions, states, states[|actions|]);
  }
}
