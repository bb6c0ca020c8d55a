/**
 Lazily initialised critical sections (runtime/compiler/dmd/critical.c:113-164), as the interleaved steps of
 any number of threads, from the moment `_STI_critical_init` has run; and the walk of `_STD_critical_term`.
 */
module CriticalSections {
  import opened Options

  type Thread = nat
  type Section = nat   // section 0 is the static `critical_section`, whose mutex is the global lock

  /** How often a section's mutex was initialised, and who owns it; a static mutex starts zeroed and unowned. */
  datatype Mutex = Mutex(inits: nat, owner: Option<Thread>, depth: nat)

  /** Where a thread stands inside `_d_criticalenter`. */
  datatype Pc =
    | Outside
    | TestNext(d: Section)       // about to look whether the section is linked
    | AwaitGlobal(d: Section)    // it was not: waiting for the global lock
    | TestAgain(d: Section)      // about to look again, inside the global lock
    | SetNext(d: Section)        // about to let the section point at the head of the list
    | SetHead(d: Section)        // about to make it the head
    | InitMutex(d: Section)      // about to initialise its mutex
    | ReleaseGlobal(d: Section)  // about to leave the global lock
    | AwaitLock(d: Section)      // waiting for the section's own mutex

  /**
   `Initialised` notes who owned the mutex at that moment and how deeply, `Locked` whether it was initialised
   by then, and `Unlocked` whether the caller owned it, without which an unlock has no effect.
   */
  datatype Event =
    | Initialised(d: Section, owner: Option<Thread>, depth: nat)
    | Locked(t: Thread, d: Section, ready: bool)
    | Unlocked(t: Thread, d: Section, owned: bool)

  /** What has happened so far, the latest event outermost. */
  datatype History = Start | After(before: History, e: Event)

  /** `next` holds the non-null `next` fields; `listed` is the list from the head, for the proofs. */
  datatype State = State(
    global: Option<Thread>, head: Section, next: map<Section, Section>, mutexes: map<Section, Mutex>,
    pcs: map<Thread, Pc>, log: History, listed: seq<Section>)

  const INITIAL := State(None, 0, map[], map[], map[], Start, [0])

  datatype Action = Enter(t: Thread, d: Section) | Exit(t: Thread, d: Section) | Go(t: Thread)

  function PcOf(s: State, t: Thread): Pc {
    if t in s.pcs then s.pcs[t] else Outside
  }

  function MutexOf(s: State, d: Section): Mutex {
    if d in s.mutexes then s.mutexes[d] else Mutex(0, None, 0)
  }

  /** A section is left by a thread that is inside; a step that takes a lock waits until nobody else has it. */
  predicate Enabled(s: State, a: Action) {
    var pc := PcOf(s, a.t);
    match a
    case Enter(t, d) => pc.Outside? && d != 0
    case Exit(t, d) => pc.Outside? && d != 0 && Held(s.log, t, d) > 0
    case Go(t) =>
      && !pc.Outside?
      && (pc.AwaitGlobal? ==> s.global.None?)
      && (pc.AwaitLock? ==> MutexOf(s, pc.d).owner.None? || MutexOf(s, pc.d).owner == Some(t))
  }

  function Move(s: State, t: Thread, pc: Pc): State {
    s.(pcs := s.pcs[t := pc])
  }

  function SetMutex(s: State, d: Section, m: Mutex, e: Event): State {
    s.(mutexes := s.mutexes[d := m], log := After(s.log, e))
  }

  function Apply(s: State, a: Action): State {
    match a
    case Enter(t, d) => Move(s, t, TestNext(d))
    case Exit(t, d) =>
      var m := MutexOf(s, d);
      if m.owner != Some(t) then SetMutex(s, d, m, Unlocked(t, d, false))
      else
        SetMutex(s, d, if m.depth > 1 then m.(depth := m.depth - 1) else m.(owner := None, depth := 0),
                 Unlocked(t, d, true))
    case Go(t) => Continue(s, t)
  }

  function Continue(s: State, t: Thread): State {
    match PcOf(s, t)
    case Outside => s
    case TestNext(d) => Move(s, t, if d in s.next then AwaitLock(d) else AwaitGlobal(d))
    case AwaitGlobal(d) => Move(s.(global := Some(t)), t, TestAgain(d))
    case TestAgain(d) => Move(s, t, if d in s.next then ReleaseGlobal(d) else SetNext(d))
    case SetNext(d) => Move(s.(next := s.next[d := s.head]), t, SetHead(d))
    case SetHead(d) => Move(s.(head := d, listed := [d] + s.listed), t, InitMutex(d))
    case InitMutex(d) =>
      var m := MutexOf(s, d);
      Move(SetMutex(s, d, Mutex(m.inits + 1, None, 0), Initialised(d, m.owner, m.depth)), t, ReleaseGlobal(d))
    case ReleaseGlobal(d) => Move(s.(global := None), t, AwaitLock(d))
    case AwaitLock(d) =>
      var m := MutexOf(s, d);
      Move(SetMutex(s, d, m.(owner := Some(t), depth := m.depth + 1), Locked(t, d, m.inits > 0)), t, Outside)
  }

  // ---------------------------------------------------------------- what a history shows

  function Inits(log: History, d: Section): nat {
    match log
    case Start => 0
    case After(before, e) => Inits(before, d) + (if e.Initialised? && e.d == d then 1 else 0)
  }

  /** Entries minus exits of `d` by `t`. */
  function Held(log: History, t: Thread, d: Section): int {
    match log
    case Start => 0
    case After(before, e) =>
      Held(before, t, d) +
      (if e.Locked? && e.t == t && e.d == d then 1 else if e.Unlocked? && e.t == t && e.d == d then -1 else 0)
  }

  /** Somebody locked `d` before its mutex was initialised. */
  predicate LockedEarly(log: History, d: Section) {
    log.After? && (LockedEarly(log.before, d) || (log.e.Locked? && log.e.d == d && !log.e.ready))
  }

  /** The thread that owned the mutex of `d` when it was initialised, and so lost it. */
  function Wiped(log: History, d: Section): Option<Thread> {
    match log
    case Start => None
    case After(before, e) => if e.Initialised? && e.d == d && e.owner.Some? then e.owner else Wiped(before, d)
  }

  /** What `t` lost to the initialisation of `d` and has not given back by exits without effect since. */
  function Lost(log: History, t: Thread, d: Section): int {
    match log
    case Start => 0
    case After(before, e) =>
      Lost(before, t, d) +
      (if e.Initialised? && e.d == d && e.owner == Some(t) then e.depth
       else if e == Unlocked(t, d, false) then -1 else 0)
  }

  // ---------------------------------------------------------------- the invariant

  predicate HoldsGlobal(pc: Pc) {
    pc.TestAgain? || pc.SetNext? || pc.SetHead? || pc.InitMutex? || pc.ReleaseGlobal?
  }

  /** The thread inside the global lock, if any, is at a position that satisfies `at`. */
  predicate Inserting(s: State, at: Pc) {
    s.global.Some? && PcOf(s, s.global.value) == at
  }

  predicate ThreadOk(s: State, t: Thread) {
    var pc := PcOf(s, t);
    && (HoldsGlobal(pc) ==> s.global == Some(t))
    && (!pc.Outside? ==> pc.d != 0)
    && match pc
       case SetNext(d) => d !in s.next
       case SetHead(d) => d in s.next && s.next[d] == s.head && d !in s.listed
       case InitMutex(d) => d in s.next
       case ReleaseGlobal(d) => d in s.next
       case AwaitLock(d) => d in s.next
       case _ => true
  }

  /** How deeply `t` owns `d`. */
  function Depth(s: State, t: Thread, d: Section): nat {
    if MutexOf(s, d).owner == Some(t) then MutexOf(s, d).depth else 0
  }

  ghost predicate SectionOk(s: State, d: Section) {
    var m := MutexOf(s, d);
    && (d != 0 ==> (d in s.next <==> d in s.listed || Inserting(s, SetHead(d))))
    && Inits(s.log, d) == m.inits
    && m.inits == (if d != 0 && d in s.listed && !Inserting(s, InitMutex(d)) then 1 else 0)
    && (m.owner.None? <==> m.depth == 0)
    && (!LockedEarly(s.log, d) && m.owner.Some? ==> m.inits > 0)
    && (Wiped(s.log, d).Some? ==> m.inits > 0 && LockedEarly(s.log, d))
    && (forall t :: Balanced(s, t, d))
  }

  /** Entries minus exits are the depth in the mutex and what was lost, which is nothing but for the wiped owner. */
  predicate Balanced(s: State, t: Thread, d: Section) {
    && Held(s.log, t, d) == Depth(s, t, d) + Lost(s.log, t, d) && Lost(s.log, t, d) >= 0
    && (Lost(s.log, t, d) > 0 ==> Wiped(s.log, d) == Some(t))
  }

  /** The `next` fields lead from the head through `listed` to section 0, without repetition. */
  ghost predicate ListOk(s: State) {
    var l := s.listed;
    && l != [] && l[0] == s.head && l[|l| - 1] == 0 && 0 !in s.next
    && (forall i, j | 0 <= i < j < |l| :: l[i] != l[j])
    && (forall i, j | 0 <= i < j < |l| && j == i + 1 :: l[i] in s.next && s.next[l[i]] == l[j])
  }

  ghost predicate Inv(s: State) {
    && (forall t :: ThreadOk(s, t))
    && (forall d :: SectionOk(s, d))
    && ListOk(s)
    && (s.global.Some? ==> HoldsGlobal(PcOf(s, s.global.value)))
  }

  lemma InitialInv()
    ensures Inv(INITIAL)
  {
  }

  lemma StepKeepsInv(s: State, a: Action)
    requires Inv(s) && Enabled(s, a)
    ensures Inv(Apply(s, a))
  {
    var s' := Apply(s, a);
    assert ThreadOk(s, a.t);
    forall t ensures ThreadOk(s', t) {
      assert ThreadOk(s, t);
      StepKeepsThread(s, a, t);
    }
    forall d ensures SectionOk(s', d) {
      assert SectionOk(s, d);
      StepKeepsSection(s, a, d);
    }
    StepKeepsGlobal(s, a);
    forall d ensures d in s.listed && d != 0 ==> d in s.next {
      assert SectionOk(s, d);
    }
    StepKeepsList(s, a);
  }

  lemma StepKeepsGlobal(s: State, a: Action)
    requires Enabled(s, a) && ThreadOk(s, a.t)
    requires s.global.Some? ==> HoldsGlobal(PcOf(s, s.global.value))
    ensures var g := Apply(s, a).global; g.Some? ==> HoldsGlobal(PcOf(Apply(s, a), g.value))
  {
  }

  lemma StepKeepsThread(s: State, a: Action, t: Thread)
    requires Enabled(s, a) && ThreadOk(s, a.t) && ThreadOk(s, t)
    requires a.Go? && !PcOf(s, a.t).Outside? ==> SectionOk(s, PcOf(s, a.t).d)
    ensures ThreadOk(Apply(s, a), t)
  {
  }

  lemma StepKeepsSection(s: State, a: Action, d: Section)
    requires Enabled(s, a) && ThreadOk(s, a.t) && SectionOk(s, d)
    requires s.global.Some? ==> HoldsGlobal(PcOf(s, s.global.value))
    ensures SectionOk(Apply(s, a), d)
  {
    if a.Go? {
      GoKeepsSection(s, a.t, d);
    } else if a.Exit? && a.d == d {
      ExitKeepsSection(s, a.t, d);
    } else {
      OtherCallKeepsSection(s, a, d);
    }
  }

  lemma ExitKeepsSection(s: State, t: Thread, d: Section)
    requires Enabled(s, Exit(t, d)) && SectionOk(s, d)
    ensures SectionOk(Apply(s, Exit(t, d)), d)
  {
    forall u ensures Balanced(Apply(s, Exit(t, d)), u, d) {
      assert Balanced(s, t, d) && Balanced(s, u, d);
    }
  }

  /** No event of section `d` lies between the two states. */
  predicate Untouched(s: State, s': State, d: Section) {
    && MutexOf(s', d) == MutexOf(s, d)
    && (s'.log == s.log || (s'.log.After? && s'.log.before == s.log && s'.log.e.d != d))
  }

  lemma UntouchedKeepsBalance(s: State, s': State, d: Section)
    requires Untouched(s, s', d) && forall t :: Balanced(s, t, d)
    ensures forall t :: Balanced(s', t, d)
  {
    forall t ensures Balanced(s', t, d) {
      assert Balanced(s, t, d);
    }
  }

  lemma OtherCallKeepsSection(s: State, a: Action, d: Section)
    requires Enabled(s, a) && SectionOk(s, d) && (a.Enter? || (a.Exit? && a.d != d))
    requires s.global.Some? ==> HoldsGlobal(PcOf(s, s.global.value))
    ensures SectionOk(Apply(s, a), d)
  {
    UntouchedKeepsBalance(s, Apply(s, a), d);
  }

  lemma GoKeepsSection(s: State, t: Thread, d: Section)
    requires Enabled(s, Go(t)) && ThreadOk(s, t) && SectionOk(s, d)
    requires s.global.Some? ==> HoldsGlobal(PcOf(s, s.global.value))
    ensures SectionOk(Continue(s, t), d)
  {
    if !PcOf(s, t).AwaitLock? && !PcOf(s, t).InitMutex? {
      UntouchedKeepsBalance(s, Continue(s, t), d);
    } else if PcOf(s, t).d == d {
      MutexStepKeepsSection(s, t, d);
    } else {
      OtherMutexStepKeepsSection(s, t, d);
    }
  }

  lemma OtherMutexStepKeepsSection(s: State, t: Thread, d: Section)
    requires Enabled(s, Go(t)) && ThreadOk(s, t) && SectionOk(s, d)
    requires (PcOf(s, t).AwaitLock? || PcOf(s, t).InitMutex?) && PcOf(s, t).d != d
    ensures SectionOk(Continue(s, t), d)
  {
    UntouchedKeepsBalance(s, Continue(s, t), d);
  }

  lemma MutexStepKeepsSection(s: State, t: Thread, d: Section)
    requires Enabled(s, Go(t)) && ThreadOk(s, t) && SectionOk(s, d)
    requires (PcOf(s, t).AwaitLock? || PcOf(s, t).InitMutex?) && PcOf(s, t).d == d
    ensures SectionOk(Continue(s, t), d)
  {
    forall u ensures Balanced(Continue(s, t), u, d) {
      assert Balanced(s, u, d);
    }
  }

  lemma StepKeepsList(s: State, a: Action)
    requires Enabled(s, a) && ThreadOk(s, a.t) && ListOk(s)
    requires forall d | d in s.listed && d != 0 :: d in s.next
    ensures ListOk(Apply(s, a))
  {
  }

  // ---------------------------------------------------------------- every run

  ghost predicate IsRun(actions: seq<Action>, states: seq<State>) {
    && |states| == |actions| + 1
    && states[0] == INITIAL
    && forall k | 0 <= k < |actions| :: Enabled(states[k], actions[k]) && states[k + 1] == Apply(states[k], actions[k])
  }

  lemma {:induction false} RunKeepsInv(actions: seq<Action>, states: seq<State>, k: nat)
    requires IsRun(actions, states) && k < |states|
    ensures Inv(states[k])
    decreases k
  {
    if k == 0 {
      InitialInv();
    } else {
      RunKeepsInv(actions, states, k - 1);
      StepKeepsInv(states[k - 1], actions[k - 1]);
    }
  }

  /**
   In every interleaving: the list from `dcs_list` is finite, has no repetition and ends at
   `critical_section`; a section has a `next` exactly when it is listed, but for the one being inserted under
   the global lock; and no mutex is initialised twice.
   */
  lemma ListIsSound(actions: seq<Action>, states: seq<State>, k: nat)
    requires IsRun(actions, states) && k < |states|
    ensures var s := states[k];
      && ListOk(s)
      && (forall d: Section | d != 0 :: d in s.next <==> d in s.listed || Inserting(s, SetHead(d)))
      && (forall d: Section :: Inits(s.log, d) <= 1)
  {
    RunKeepsInv(actions, states, k);
    forall d: Section
      ensures Inits(states[k].log, d) <= 1
      ensures d != 0 ==> (d in states[k].next <==> d in states[k].listed || Inserting(states[k], SetHead(d)))
    {
      assert SectionOk(states[k], d);
    }
  }

  /**
   `next` is published before the mutex is initialised.  A thread about to lock a section finds its mutex
   uninitialised exactly while another thread is between those two steps.
   */
  lemma UninitialisedIffBeingInserted(actions: seq<Action>, states: seq<State>, k: nat, t: Thread)
    requires IsRun(actions, states) && k < |states| && PcOf(states[k], t).AwaitLock?
    ensures var s, d := states[k], PcOf(states[k], t).d;
      MutexOf(s, d).inits == 0 <==> Inserting(s, SetHead(d)) || Inserting(s, InitMutex(d))
  {
    RunKeepsInv(actions, states, k);
    assert ThreadOk(states[k], t);
    assert SectionOk(states[k], PcOf(states[k], t).d);
    if states[k].global.Some? {
      assert ThreadOk(states[k], states[k].global.value);
    }
  }

  /** Two threads are inside `d` at once. */
  ghost predicate HeldByTwo(log: History, d: Section) {
    exists t: Thread, u: Thread :: t != u && Held(log, t, d) > 0 && Held(log, u, d) > 0
  }

  /** No thread has lost a hold on `d` that it still counts on. */
  ghost predicate NothingLost(log: History, d: Section) {
    forall t: Thread :: Lost(log, t, d) == 0
  }

  /** Somebody counts on a lost hold on `d` while another thread owns the mutex. */
  ghost predicate LostToAnother(s: State, d: Section) {
    exists t: Thread ::
      Lost(s.log, t, d) > 0 && MutexOf(s, d).owner.Some? && MutexOf(s, d).owner != Some(t)
  }

  lemma BalanceMeans(s: State, d: Section)
    requires SectionOk(s, d)
    ensures forall t: Thread :: Held(s.log, t, d) >= 0
    ensures (forall t: Thread :: Held(s.log, t, d) == Depth(s, t, d)) <==> NothingLost(s.log, d)
    ensures HeldByTwo(s.log, d) <==> LostToAnother(s, d)
    ensures Wiped(s.log, d).None? ==> NothingLost(s.log, d)
  {
    var o := MutexOf(s, d).owner;
    forall t: Thread
      ensures Held(s.log, t, d) >= 0 && (Held(s.log, t, d) == Depth(s, t, d) <==> Lost(s.log, t, d) == 0)
      ensures Held(s.log, t, d) > 0 <==> Lost(s.log, t, d) > 0 || o == Some(t)
      ensures Lost(s.log, t, d) == 0 || (Lost(s.log, t, d) > 0 && Wiped(s.log, d) == Some(t))
    {
      assert Balanced(s, t, d);
    }
    if LostToAnother(s, d) {
      var t: Thread :| Lost(s.log, t, d) > 0 && o.Some? && o != Some(t);
      assert Held(s.log, t, d) > 0 && Held(s.log, o.value, d) > 0;
    }
  }

  /**
   Entries and exits balance for every thread if and only if no hold was lost to the initialisation of the
   mutex; and two threads are inside a section if and only if one has lost its hold and another owns the mutex.
   Nothing is lost unless the mutex was owned when it was initialised.
   */
  lemma SectionsExclude(actions: seq<Action>, states: seq<State>, k: nat, d: Section)
    requires IsRun(actions, states) && k < |states|
    ensures var s := states[k];
      && (forall t: Thread :: Held(s.log, t, d) >= 0)
      && ((forall t: Thread :: Held(s.log, t, d) == Depth(s, t, d)) <==> NothingLost(s.log, d))
      && (HeldByTwo(s.log, d) <==> LostToAnother(s, d))
      && (Wiped(s.log, d).None? ==> NothingLost(s.log, d))
  {
    RunKeepsInv(actions, states, k);
    assert SectionOk(states[k], d);
    BalanceMeans(states[k], d);
  }

  /** What is wiped was locked early, so a section never locked before its initialisation excludes. */
  lemma NeverEarlyExcludes(actions: seq<Action>, states: seq<State>, k: nat, d: Section)
    requires IsRun(actions, states) && k < |states| && !LockedEarly(states[k].log, d)
    ensures Wiped(states[k].log, d).None? && !HeldByTwo(states[k].log, d)
  {
    RunKeepsInv(actions, states, k);
    assert SectionOk(states[k], d);
    SectionsExclude(actions, states, k, d);
  }

  /** A run may go on with any enabled step. */
  lemma GoOn(actions: seq<Action>, states: seq<State>, a: Action) returns (actions': seq<Action>, states': seq<State>)
    requires IsRun(actions, states) && Enabled(states[|states| - 1], a)
    ensures IsRun(actions', states') && states'[|states'| - 1] == Apply(states[|states| - 1], a)
  {
    actions', states' := actions + [a], states + [Apply(states[|states| - 1], a)];
  }

  /** Thread 1 has linked section 1 but not initialised it, and thread 2 has locked it. */
  predicate IsEarly(s: State) {
    && s.global == Some(1) && PcOf(s, 1) == SetHead(1) && 1 in s.next
    && s.log == After(Start, Locked(2, 1, false)) && MutexOf(s, 1) == Mutex(0, Some(2), 1)
    && PcOf(s, 2).Outside?
  }

  /** Thread 1 has linked section 1 but not initialised it. */
  predicate IsLinked(s: State) {
    && s.global == Some(1) && PcOf(s, 1) == SetHead(1) && 1 in s.next
    && s.log == Start && s.mutexes == map[] && PcOf(s, 2).Outside?
  }

  lemma LinkHappens() returns (actions: seq<Action>, states: seq<State>)
    ensures IsRun(actions, states) && IsLinked(states[|states| - 1])
  {
    actions, states := GoOn([], [INITIAL], Enter(1, 1));
    actions, states := GoOn(actions, states, Go(1));
    actions, states := GoOn(actions, states, Go(1));
    actions, states := GoOn(actions, states, Go(1));
    actions, states := GoOn(actions, states, Go(1));
  }

  lemma EarlyLockHappens() returns (actions: seq<Action>, states: seq<State>)
    ensures IsRun(actions, states) && IsEarly(states[|states| - 1])
  {
    actions, states := LinkHappens();
    actions, states := GoOn(actions, states, Enter(2, 1));
    actions, states := GoOn(actions, states, Go(2));
    actions, states := GoOn(actions, states, Go(2));
  }

  /** An early lock alone does no harm: here it is given back before the mutex is initialised. */
  lemma EarlyLockMayBeHarmless() returns (actions: seq<Action>, states: seq<State>)
    ensures IsRun(actions, states)
    ensures var log := states[|states| - 1].log; LockedEarly(log, 1) && Inits(log, 1) == 1 && Wiped(log, 1).None?
  {
    actions, states := EarlyLockHappens();
    actions, states := GoOn(actions, states, Exit(2, 1));
    actions, states := GoOn(actions, states, Go(1));
    actions, states := GoOn(actions, states, Go(1));
  }

  /** Thread 2 has lost section 1 to its initialisation, and thread 1 is inside too. */
  predicate IsBroken(s: State) {
    && Wiped(s.log, 1) == Some(2) && Held(s.log, 1, 1) == 1 && Held(s.log, 2, 1) == 1
    && Lost(s.log, 1, 1) == 0 && Lost(s.log, 2, 1) == 1
    && MutexOf(s, 1) == Mutex(1, Some(1), 1) && PcOf(s, 2).Outside?
  }

  /** With an early lock, two threads can be inside one section. */
  lemma EarlyLockBreaksExclusion() returns (actions: seq<Action>, states: seq<State>)
    ensures IsRun(actions, states) && IsBroken(states[|states| - 1]) && HeldByTwo(states[|states| - 1].log, 1)
  {
    actions, states := EarlyLockHappens();
    actions, states := GoOn(actions, states, Go(1));
    actions, states := GoOn(actions, states, Go(1));
    assert MutexOf(states[|states| - 1], 1) == Mutex(1, None, 0);
    actions, states := GoOn(actions, states, Go(1));
    actions, states := GoOn(actions, states, Go(1));
  }

  /** The harm is over once the thread that lost its hold has left. */
  lemma LeavingEndsTheHarm() returns (actions: seq<Action>, states: seq<State>)
    ensures IsRun(actions, states)
    ensures var s := states[|states| - 1];
      Wiped(s.log, 1) == Some(2) && MutexOf(s, 1).owner == Some(1) && NothingLost(s.log, 1) && !HeldByTwo(s.log, 1)
  {
    actions, states := EarlyLockBreaksExclusion();
    actions, states := GoOn(actions, states, Exit(2, 1));
    SectionsExclude(actions, states, |states| - 1, 1);
    var s := states[|states| - 1];
    RunKeepsInv(actions, states, |states| - 1);
    assert SectionOk(s, 1);
    forall t: Thread ensures Lost(s.log, t, 1) == 0 {
      assert Balanced(s, t, 1);
    }
  }

  // ---------------------------------------------------------------- every call does its work

  /** How often `e` has happened. */
  function Times(log: History, e: Event): nat {
    match log
    case Start => 0
    case After(before, last) => Times(before, e) + (if last == e then 1 else 0)
  }

  predicate Entering(pc: Pc, d: Section) {
    !pc.Outside? && pc.d == d
  }

  /** What the calls that `t` made for `d`, counted in `calls`, have come to. */
  predicate Answered(calls: multiset<Action>, s: State, t: Thread, d: Section) {
    && calls[Enter(t, d)] == Times(s.log, Locked(t, d, true)) + Times(s.log, Locked(t, d, false))
                             + (if Entering(PcOf(s, t), d) then 1 else 0)
    && calls[Exit(t, d)] == Times(s.log, Unlocked(t, d, true)) + Times(s.log, Unlocked(t, d, false))
  }

  lemma AnsweredNext(calls: multiset<Action>, s: State, a: Action, t: Thread, d: Section)
    requires Enabled(s, a) && Answered(calls, s, t, d)
    ensures Answered(calls + multiset{a}, Apply(s, a), t, d)
  {
    if a.Go? {
      assert a != Enter(t, d) && a != Exit(t, d);
      GoAnswers(calls, s, a.t, t, d);
    } else {
      CallAnswers(calls, s, a, t, d);
    }
  }

  lemma GoAnswers(calls: multiset<Action>, s: State, u: Thread, t: Thread, d: Section)
    requires Enabled(s, Go(u)) && Answered(calls, s, t, d)
    ensures Answered(calls, Continue(s, u), t, d)
  {
    if PcOf(s, u).AwaitLock? || PcOf(s, u).InitMutex? {
      MutexStepAnswers(calls, s, u, t, d);
    }
  }

  lemma MutexStepAnswers(calls: multiset<Action>, s: State, u: Thread, t: Thread, d: Section)
    requires PcOf(s, u).AwaitLock? || PcOf(s, u).InitMutex?
    requires Answered(calls, s, t, d)
    ensures Answered(calls, Continue(s, u), t, d)
  {
  }

  lemma CallAnswers(calls: multiset<Action>, s: State, a: Action, t: Thread, d: Section)
    requires Enabled(s, a) && !a.Go? && Answered(calls, s, t, d)
    ensures Answered(calls + multiset{a}, Apply(s, a), t, d)
  {
    if a.Exit? && a.d != d {
      assert a != Exit(t, d);
    }
  }

  /**
   In every run an enter call adds exactly one `Locked` when it is over, and an exit call exactly one `Unlocked`.
   So entries minus exits are the calls of either kind that are over.
   */
  lemma {:induction false} CallsAreAnswered(actions: seq<Action>, states: seq<State>, k: nat, t: Thread, d: Section)
    requires IsRun(actions, states) && k < |states|
    ensures Answered(multiset(actions[..k]), states[k], t, d)
    ensures Held(states[k].log, t, d) + multiset(actions[..k])[Exit(t, d)]
            + (if Entering(PcOf(states[k], t), d) then 1 else 0) == multiset(actions[..k])[Enter(t, d)]
    decreases k
  {
    if k > 0 {
      CallsAreAnswered(actions, states, k - 1, t, d);
      assert actions[..k] == actions[..k - 1] + [actions[k - 1]];
      AnsweredNext(multiset(actions[..k - 1]), states[k - 1], actions[k - 1], t, d);
    }
    HeldIsDifference(states[k].log, t, d);
  }

  lemma {:induction false} HeldIsDifference(log: History, t: Thread, d: Section)
    ensures Held(log, t, d) == Times(log, Locked(t, d, true)) + Times(log, Locked(t, d, false))
                               - Times(log, Unlocked(t, d, true)) - Times(log, Unlocked(t, d, false))
  {
    if log.After? {
      HeldIsDifference(log.before, t, d);
    }
  }

  /**
   An exit by the owner is noted as such and lowers the depth by one, to a free mutex at last; one by anybody else
   leaves all mutexes as they are.
   */
  lemma ExitUnlocksOnce(actions: seq<Action>, states: seq<State>, k: nat, t: Thread, d: Section)
    requires IsRun(actions, states) && k < |actions| && actions[k] == Exit(t, d)
    ensures var s, s' := states[k], states[k + 1];
      && s'.log == After(s.log, Unlocked(t, d, MutexOf(s, d).owner == Some(t)))
      && (forall e: Section | e != d || MutexOf(s, d).owner != Some(t) :: MutexOf(s', e) == MutexOf(s, e))
      && (MutexOf(s, d).owner == Some(t) ==>
            && MutexOf(s', d).depth == MutexOf(s, d).depth - 1 && MutexOf(s', d).inits == MutexOf(s, d).inits
            && MutexOf(s', d).owner == if MutexOf(s, d).depth == 1 then None else Some(t))
  {
    RunKeepsInv(actions, states, k);
    assert SectionOk(states[k], d);
  }

  /** Every thread has left `d` as often as it has entered it. */
  ghost predicate NobodyInside(log: History, d: Section) {
    forall t: Thread :: Held(log, t, d) == 0
  }

  /** A mutex is free, and nothing is lost, exactly when every thread has left as often as it has entered. */
  lemma FreeIffBalanced(actions: seq<Action>, states: seq<State>, k: nat, d: Section)
    requires IsRun(actions, states) && k < |states|
    ensures MutexOf(states[k], d).owner.None? && NothingLost(states[k].log, d) <==> NobodyInside(states[k].log, d)
  {
    var s := states[k];
    RunKeepsInv(actions, states, k);
    assert SectionOk(s, d);
    forall t: Thread ensures Held(s.log, t, d) == Depth(s, t, d) + Lost(s.log, t, d) && Lost(s.log, t, d) >= 0 {
      assert Balanced(s, t, d);
    }
    if t: Thread :| Held(s.log, t, d) != 0 {
      assert Depth(s, t, d) > 0 || Lost(s.log, t, d) != 0;
    } else {
      forall t: Thread ensures Depth(s, t, d) == 0 && Lost(s.log, t, d) == 0 {
        assert Held(s.log, t, d) == 0;
      }
      assert MutexOf(s, d).owner.Some? ==> Depth(s, MutexOf(s, d).owner.value, d) > 0;
    }
  }

  // ---------------------------------------------------------------- termination

  /** `_STD_critical_term`: destroys the mutex at the head and moves on, until the list is empty. */
  method Terminate(s: State) returns (destroyed: seq<Section>)
    requires Inv(s)
    ensures destroyed == s.listed
  {
    destroyed := [];
    var list := Some(s.head);
    while list.Some?
      invariant |destroyed| <= |s.listed| && destroyed == s.listed[..|destroyed|]
      invariant list == if |destroyed| < |s.listed| then Some(s.listed[|destroyed|]) else None
      decreases |s.listed| - |destroyed|
    {
      var d := list.value;
      destroyed := destroyed + [d];
      list := if d in s.next then Some(s.next[d]) else None;
    }
  }

  /**
   Every section is destroyed at most once, and section 0 once; and what is destroyed is exactly what was
   initialised if and only if no thread is about to initialise a section already listed.
   */
  lemma EachSectionDestroyedOnce(actions: seq<Action>, states: seq<State>, k: nat)
    requires IsRun(actions, states) && k < |states|
    ensures forall d: Section :: multiset(states[k].listed)[d] <= 1
    ensures multiset(states[k].listed)[0] == 1
    ensures (forall d: Section | d != 0 :: d in states[k].listed <==> Inits(states[k].log, d) == 1) <==>
      !(exists d: Section :: Inserting(states[k], InitMutex(d)))
  {
    var s := states[k];
    RunKeepsInv(actions, states, k);
    forall d: Section ensures multiset(s.listed)[d] <= 1 {
      DistinctCountsOnce(s.listed, d);
    }
    DistinctCountsOnce(s.listed, 0);
    if d: Section :| Inserting(s, InitMutex(d)) {
      assert SectionOk(s, d) && ThreadOk(s, s.global.value);
    } else {
      forall d: Section | d != 0 ensures d in s.listed <==> Inits(s.log, d) == 1 {
        assert SectionOk(s, d);
      }
    }
  }

  lemma {:induction false} DistinctCountsOnce(l: seq<Section>, d: Section)
    requires forall i, j | 0 <= i < j < |l| :: l[i] != l[j]
    ensures multiset(l)[d] == if d in l then 1 else 0
  {
    if l != [] {
      assert l == [l[0]] + l[1..];
      DistinctCountsOnce(l[1..], d);
    }
  }
}
