/**
 Lazily created object monitors (runtime/compiler/dmd/monitor.c:161-212), as the interleaved steps of any
 number of threads over any number of objects.
 */
module MonitorProtocol {
  import opened Options

  type Thread = nat
  type Obj = nat
  type Mon = nat   // the number of an allocation

  /** A recursive mutex inside an allocated monitor; `home` remembers which object it was allocated for. */
  datatype Mutex = Mutex(home: Obj, inited: bool, owner: Option<Thread>, depth: nat)

  /** Where a thread stands; each step of the source that others can observe is one step here. */
  datatype Pc =
    | Idle
    | AwaitGlobal(o: Obj)           // creating: waiting for the global lock
    | Test(o: Obj)                  // about to look whether there is a monitor already
    | Alloc(o: Obj)                 // there was none: about to allocate one
    | InitMutex(o: Obj, m: Mon)     // about to initialise its mutex
    | Publish(o: Obj, m: Mon)       // about to let the object point at it
    | ReleaseGlobal(o: Obj)         // about to leave the global lock; nothing is left to free
    | AwaitMonitor(o: Obj, m: Mon)  // locking: waiting for the object's mutex
    | DestroyMutex(o: Obj)          // destroying: about to destroy the mutex
    | FreeMonitor(o: Obj)           // about to free the monitor
    | ClearMonitor(o: Obj)          // about to clear the object's pointer

  datatype Event = Published(o: Obj, m: Mon) | Locked(t: Thread, o: Obj) | Unlocked(t: Thread, o: Obj) | Freed(m: Mon)

  /** What has happened so far, the latest event outermost. */
  datatype History = Start | After(before: History, e: Event)

  /** `monitor` holds the non-null `h->monitor`; `doomed` says who destroys, or destroyed, an object. */
  datatype State = State(
    global: Option<Thread>, monitor: map<Obj, Mon>, heap: map<Mon, Mutex>, pcs: map<Thread, Pc>,
    doomed: map<Obj, Thread>, log: History, next: Mon)

  const INITIAL := State(None, map[], map[], map[], map[], Start, 0)

  function PcOf(s: State, t: Thread): Pc {
    if t in s.pcs then s.pcs[t] else Idle
  }

  /** A call into the runtime, or the next step of the call that a thread is in. */
  datatype Action =
    | Create(t: Thread, o: Obj) | Lock(t: Thread, o: Obj) | Unlock(t: Thread, o: Obj) | Destroy(t: Thread, o: Obj)
    | Go(t: Thread)

  /** The object a thread is busy with. */
  predicate Uses(pc: Pc, o: Obj) {
    !pc.Idle? && pc.o == o
  }

  predicate Unowned(s: State, o: Obj) {
    o in s.monitor && s.monitor[o] in s.heap && s.heap[s.monitor[o]].owner.None?
  }

  predicate OwnedBy(s: State, o: Obj, t: Thread) {
    o in s.monitor && s.monitor[o] in s.heap && s.heap[s.monitor[o]].owner == Some(t)
  }

  /**
   What callers and the mutexes allow.  `lock`, `unlock` and `destroy` assert a non-null monitor; a mutex
   is unlocked by its owner; an object is destroyed when nobody uses or owns it, and not used afterwards.
   */
  ghost predicate Enabled(s: State, a: Action) {
    match a
    case Create(t, o) => PcOf(s, t).Idle? && o !in s.doomed
    case Lock(t, o) => PcOf(s, t).Idle? && o !in s.doomed && o in s.monitor
    case Unlock(t, o) => PcOf(s, t).Idle? && o !in s.doomed && OwnedBy(s, o, t)
    case Destroy(t, o) =>
      PcOf(s, t).Idle? && o !in s.doomed && Unowned(s, o) && forall u :: !Uses(PcOf(s, u), o)
    case Go(t) =>
      var pc := PcOf(s, t);
      && !pc.Idle?
      && (pc.AwaitGlobal? ==> s.global.None?)
      && (pc.AwaitMonitor? ==> pc.m in s.heap && (s.heap[pc.m].owner.None? || s.heap[pc.m].owner == Some(t)))
  }

  function Move(s: State, t: Thread, pc: Pc): State {
    s.(pcs := s.pcs[t := pc])
  }

  function Note(s: State, e: Event): State {
    s.(log := After(s.log, e))
  }

  function SetMutex(s: State, m: Mon, x: Mutex): State {
    s.(heap := s.heap[m := x])
  }

  function Without<V>(m: map<nat, V>, k: nat): map<nat, V> {
    map x | x in m && x != k :: m[x]
  }

  function Apply(s: State, a: Action): State {
    match a
    case Create(t, o) => Move(s, t, AwaitGlobal(o))
    case Lock(t, o) => if o in s.monitor then Move(s, t, AwaitMonitor(o, s.monitor[o])) else s
    case Unlock(t, o) =>
      if o in s.monitor && s.monitor[o] in s.heap then
        var x := s.heap[s.monitor[o]];
        Note(SetMutex(s, s.monitor[o], if x.depth > 1 then x.(depth := x.depth - 1) else x.(owner := None, depth := 0)),
             Unlocked(t, o))
      else s
    case Destroy(t, o) => Move(s.(doomed := s.doomed[o := t]), t, DestroyMutex(o))
    case Go(t) => Continue(s, t)
  }

  function Continue(s: State, t: Thread): State {
    match PcOf(s, t)
    case Idle => s
    case AwaitGlobal(o) => Move(s.(global := Some(t)), t, Test(o))
    case Test(o) => Move(s, t, if o in s.monitor then ReleaseGlobal(o) else Alloc(o))
    case Alloc(o) =>
      Move(SetMutex(s, s.next, Mutex(o, false, None, 0)).(next := s.next + 1), t, InitMutex(o, s.next))
    case InitMutex(o, m) => Move(SetMutex(s, m, Mutex(o, true, None, 0)), t, Publish(o, m))
    case Publish(o, m) => Note(Move(s.(monitor := s.monitor[o := m]), t, ReleaseGlobal(o)), Published(o, m))
    case ReleaseGlobal(o) => Move(s.(global := None), t, Idle)
    case AwaitMonitor(o, m) =>
      if m in s.heap then
        Note(Move(SetMutex(s, m, s.heap[m].(owner := Some(t), depth := s.heap[m].depth + 1)), t, Idle), Locked(t, o))
      else s
    case DestroyMutex(o) =>
      if o in s.monitor then Move(SetMutex(s, s.monitor[o], Mutex(o, false, None, 0)), t, FreeMonitor(o)) else s
    case FreeMonitor(o) =>
      if o in s.monitor then
        Note(Move(s.(heap := Without(s.heap, s.monitor[o])), t, ClearMonitor(o)), Freed(s.monitor[o]))
      else s
    case ClearMonitor(o) => Move(s.(monitor := Without(s.monitor, o)), t, Idle)
  }

  // ---------------------------------------------------------------- what a history shows

  /** How often a monitor was published for `o`. */
  function Publications(log: History, o: Obj): nat {
    match log
    case Start => 0
    case After(before, e) => Publications(before, o) + (if e.Published? && e.o == o then 1 else 0)
  }

  /** Locks minus unlocks of `o` by `t`. */
  function Held(log: History, t: Thread, o: Obj): int {
    match log
    case Start => 0
    case After(before, e) =>
      Held(before, t, o) + (if e == Locked(t, o) then 1 else if e == Unlocked(t, o) then -1 else 0)
  }

  function Frees(log: History, m: Mon): nat {
    match log
    case Start => 0
    case After(before, e) => Frees(before, m) + (if e == Freed(m) then 1 else 0)
  }

  // ---------------------------------------------------------------- the invariant

  predicate HoldsGlobal(pc: Pc) {
    pc.Test? || pc.Alloc? || pc.InitMutex? || pc.Publish? || pc.ReleaseGlobal?
  }

  predicate Destroys(pc: Pc) {
    pc.DestroyMutex? || pc.FreeMonitor? || pc.ClearMonitor?
  }

  /** The mutex of `o`'s published monitor, unowned. */
  predicate Quiet(s: State, o: Obj, inited: bool) {
    o in s.monitor && s.monitor[o] in s.heap && s.heap[s.monitor[o]] == Mutex(o, inited, None, 0)
  }

  /** Allocation `m` is still private to the thread creating `o`'s monitor. */
  predicate Private(s: State, o: Obj, m: Mon, inited: bool) {
    o !in s.monitor && m in s.heap && s.heap[m] == Mutex(o, inited, None, 0)
  }

  /** What holds for a thread at its position. */
  predicate ThreadOk(s: State, t: Thread) {
    var pc := PcOf(s, t);
    && (HoldsGlobal(pc) ==> s.global == Some(t))
    && (!pc.Idle? && !Destroys(pc) ==> pc.o !in s.doomed)
    && (Destroys(pc) ==> pc.o in s.doomed && s.doomed[pc.o] == t)
    && match pc
       case Alloc(o) => o !in s.monitor
       case InitMutex(o, m) => Private(s, o, m, false)
       case Publish(o, m) => Private(s, o, m, true)
       case AwaitMonitor(o, m) => o in s.monitor && s.monitor[o] == m
       case DestroyMutex(o) => Quiet(s, o, true)
       case FreeMonitor(o) => Quiet(s, o, false)
       case ClearMonitor(o) => o in s.monitor && s.monitor[o] !in s.heap
       case _ => true
  }

  /** A monitor in use: published, not being destroyed. */
  predicate InUse(s: State, o: Obj) {
    o in s.monitor && o !in s.doomed
  }

  /** How deeply `t` owns `o`. */
  function Depth(s: State, t: Thread, o: Obj): nat {
    if InUse(s, o) && OwnedBy(s, o, t) then s.heap[s.monitor[o]].depth else 0
  }

  ghost predicate ObjectOk(s: State, o: Obj) {
    && (o in s.monitor ==> s.monitor[o] < s.next && (s.monitor[o] in s.heap ==> s.heap[s.monitor[o]].home == o))
    && (InUse(s, o) ==>
          && s.monitor[o] in s.heap && s.heap[s.monitor[o]].inited
          && (s.heap[s.monitor[o]].owner.None? <==> s.heap[s.monitor[o]].depth == 0))
    && Publications(s.log, o) <= 1
    && (o !in s.monitor && o !in s.doomed ==> Publications(s.log, o) == 0)
    && (forall t :: Held(s.log, t, o) == Depth(s, t, o))
  }

  /** The thread inside the global lock has allocated `m` and not published it yet. */
  predicate Builds(s: State, m: Mon) {
    && s.global.Some?
    && var pc := PcOf(s, s.global.value);
       (pc.InitMutex? || pc.Publish?) && pc.m == m
  }

  /** Each allocation is its object's monitor, or under construction, or has been freed once. */
  predicate MemoryOk(s: State, m: Mon) {
    && Frees(s.log, m) == (if m < s.next && m !in s.heap then 1 else 0)
    && (m in s.heap ==>
          && m < s.next
          && var o := s.heap[m].home;
             (o in s.monitor && s.monitor[o] == m) || Builds(s, m))
  }

  ghost predicate Inv(s: State) {
    && (forall t :: ThreadOk(s, t))
    && (forall o :: ObjectOk(s, o))
    && (forall m :: MemoryOk(s, m))
    && (s.global.Some? ==> HoldsGlobal(PcOf(s, s.global.value)))
  }

  lemma InitialInv()
    ensures Inv(INITIAL)
  {
  }

  lemma StepKeepsInv(s: State, a: Action)
    requires Inv(s) && Enabled(s, a)
    ensures Inv(Apply(s, a))
  {
    var s' := Apply(s, a);
    forall t ensures ThreadOk(s', t) {
      StepKeepsThread(s, a, t);
    }
    forall o ensures ObjectOk(s', o) {
      StepKeepsObject(s, a, o);
    }
    forall m ensures MemoryOk(s', m) {
      StepKeepsMemory(s, a, m);
    }
    assert ThreadOk(s, a.t);
    StepKeepsGlobal(s, a);
  }

  lemma StepKeepsGlobal(s: State, a: Action)
    requires Enabled(s, a) && ThreadOk(s, a.t)
    requires s.global.Some? ==> HoldsGlobal(PcOf(s, s.global.value))
    ensures var g := Apply(s, a).global; g.Some? ==> HoldsGlobal(PcOf(Apply(s, a), g.value))
  {
    if a.Go? && HoldsGlobal(PcOf(s, a.t)) {
    } else if s.global.Some? {
      assert s.global.value != a.t;
    }
  }

  /** The object a step is about. */
  function Subject(s: State, a: Action): Obj
    requires Enabled(s, a)
  {
    if a.Go? then PcOf(s, a.t).o else a.o
  }

  lemma StepKeepsThread(s: State, a: Action, u: Thread)
    requires Inv(s) && Enabled(s, a)
    ensures ThreadOk(Apply(s, a), u)
  {
    assert ThreadOk(s, a.t) && ThreadOk(s, u);
    assert ObjectOk(s, Subject(s, a)) && MemoryOk(s, s.next);
    if u == a.t {
      MoverStaysOk(s, a);
    } else {
      if !PcOf(s, u).Idle? {
        assert ObjectOk(s, PcOf(s, u).o);
      }
      OthersStayOk(s, a, u);
    }
  }

  lemma MoverStaysOk(s: State, a: Action)
    requires Enabled(s, a) && ThreadOk(s, a.t) && ObjectOk(s, Subject(s, a)) && MemoryOk(s, s.next)
    ensures ThreadOk(Apply(s, a), a.t)
  {
    if a.Go? {
      GoerStaysOk(s, a.t);
    }
  }

  lemma GoerStaysOk(s: State, t: Thread)
    requires Enabled(s, Go(t)) && ThreadOk(s, t) && ObjectOk(s, PcOf(s, t).o) && MemoryOk(s, s.next)
    ensures ThreadOk(Continue(s, t), t)
  {
  }

  lemma OthersStayOk(s: State, a: Action, u: Thread)
    requires Enabled(s, a) && ThreadOk(s, a.t) && ObjectOk(s, Subject(s, a)) && MemoryOk(s, s.next)
    requires u != a.t && ThreadOk(s, u) && (!PcOf(s, u).Idle? ==> ObjectOk(s, PcOf(s, u).o))
    ensures ThreadOk(Apply(s, a), u)
  {
    if a.Go? {
      if Destroys(PcOf(s, a.t)) {
        OthersStayOkAsOneDestroys(s, a.t, u);
      } else if HoldsGlobal(PcOf(s, a.t)) {
        OthersStayOkAsOneBuilds(s, a.t, u);
      } else {
        OthersStayOkAsOneGoes(s, a.t, u);
      }
    }
  }

  lemma OthersStayOkAsOneGoes(s: State, t: Thread, u: Thread)
    requires Enabled(s, Go(t)) && ThreadOk(s, t) && ObjectOk(s, PcOf(s, t).o) && MemoryOk(s, s.next)
    requires !Destroys(PcOf(s, t)) && !HoldsGlobal(PcOf(s, t))
    requires u != t && ThreadOk(s, u) && (!PcOf(s, u).Idle? ==> ObjectOk(s, PcOf(s, u).o))
    ensures ThreadOk(Continue(s, t), u)
  {
  }

  lemma OthersStayOkAsOneBuilds(s: State, t: Thread, u: Thread)
    requires Enabled(s, Go(t)) && ThreadOk(s, t) && ObjectOk(s, PcOf(s, t).o) && MemoryOk(s, s.next)
    requires HoldsGlobal(PcOf(s, t))
    requires u != t && ThreadOk(s, u) && (!PcOf(s, u).Idle? ==> ObjectOk(s, PcOf(s, u).o))
    ensures ThreadOk(Continue(s, t), u)
  {
  }

  lemma OthersStayOkAsOneDestroys(s: State, t: Thread, u: Thread)
    requires Enabled(s, Go(t)) && ThreadOk(s, t) && ObjectOk(s, PcOf(s, t).o)
    requires Destroys(PcOf(s, t))
    requires u != t && ThreadOk(s, u) && (!PcOf(s, u).Idle? ==> ObjectOk(s, PcOf(s, u).o))
    ensures ThreadOk(Continue(s, t), u)
  {
  }

  /** What a step may do to the rest of the world: nothing an object other than its subject can see. */
  predicate SameObject(s: State, s': State, o: Obj) {
    && (o in s'.doomed <==> o in s.doomed)
    && (o in s'.monitor <==> o in s.monitor)
    && s.next <= s'.next
    && (o in s.monitor ==>
          var m := s.monitor[o];
          s'.monitor[o] == m && (m in s'.heap <==> m in s.heap) && (m in s.heap ==> s'.heap[m] == s.heap[m]))
  }

  predicate SameObjectLog(s: State, s': State, o: Obj) {
    s'.log == s.log || (s'.log.After? && s'.log.before == s.log && (s'.log.e.Freed? || s'.log.e.o != o))
  }

  lemma SameObjectStaysOk(s: State, s': State, o: Obj)
    requires ObjectOk(s, o) && SameObject(s, s', o) && SameObjectLog(s, s', o)
    ensures ObjectOk(s', o)
  {
  }

  lemma StepKeepsObject(s: State, a: Action, o: Obj)
    requires Inv(s) && Enabled(s, a)
    ensures ObjectOk(Apply(s, a), o)
  {
    var p := Subject(s, a);
    assert ThreadOk(s, a.t) && MemoryOk(s, s.next);
    assert ObjectOk(s, o) && ObjectOk(s, p);
    if o != p {
      OtherObjectsAreUntouched(s, a, o);
      SameObjectStaysOk(s, Apply(s, a), o);
    } else if a.Unlock? {
    } else if a.Go? {
      if PcOf(s, a.t).Publish? {
        assert MemoryOk(s, PcOf(s, a.t).m);
      }
      GoKeepsObject(s, a.t);
    }
  }

  lemma OtherObjectsAreUntouched(s: State, a: Action, o: Obj)
    requires Enabled(s, a) && o != Subject(s, a)
    requires ThreadOk(s, a.t) && MemoryOk(s, s.next) && ObjectOk(s, o) && ObjectOk(s, Subject(s, a))
    ensures SameObject(s, Apply(s, a), o) && SameObjectLog(s, Apply(s, a), o)
  {
  }

  lemma GoKeepsObject(s: State, t: Thread)
    requires Enabled(s, Go(t)) && ThreadOk(s, t) && ObjectOk(s, PcOf(s, t).o) && MemoryOk(s, s.next)
    requires PcOf(s, t).Publish? ==> MemoryOk(s, PcOf(s, t).m)
    ensures ObjectOk(Continue(s, t), PcOf(s, t).o)
  {
  }

  lemma StepKeepsMemory(s: State, a: Action, m: Mon)
    requires Inv(s) && Enabled(s, a)
    ensures MemoryOk(Apply(s, a), m)
  {
    assert ThreadOk(s, a.t);
    assert ObjectOk(s, Subject(s, a));
    assert MemoryOk(s, m) && MemoryOk(s, s.next);
    if s.global.Some? {
      assert ThreadOk(s, s.global.value);
    }
    if a.Go? {
      GoKeepsMemory(s, a.t, m);
    }
  }

  lemma GoKeepsMemory(s: State, t: Thread, m: Mon)
    requires Enabled(s, Go(t)) && ThreadOk(s, t) && ObjectOk(s, PcOf(s, t).o)
    requires MemoryOk(s, m) && MemoryOk(s, s.next)
    requires s.global.Some? ==> HoldsGlobal(PcOf(s, s.global.value))
    ensures MemoryOk(Continue(s, t), m)
  {
    if HoldsGlobal(PcOf(s, t)) {
      BuilderKeepsMemory(s, t, m);
    }
  }

  lemma BuilderKeepsMemory(s: State, t: Thread, m: Mon)
    requires ThreadOk(s, t) && HoldsGlobal(PcOf(s, t)) && ObjectOk(s, PcOf(s, t).o)
    requires MemoryOk(s, m) && MemoryOk(s, s.next)
    ensures MemoryOk(Continue(s, t), m)
  {
  }

  // ---------------------------------------------------------------- every run

  ghost predicate IsRun(actions: seq<Action>, states: seq<State>) {
    && |states| == |actions| + 1
    && states[0] == INITIAL
    && forall k | 0 <= k < |actions| :: Enabled(states[k], actions[k]) && states[k + 1] == Apply(states[k], actions[k])
  }

  lemma {:induction false} RunKeepsInv(actions: seq<Action>, states: seq<State>, k: nat)
    requires IsRun(actions, states) && k < |states|
    ensures Inv(states[k])
    decreases k
  {
    if k == 0 {
      InitialInv();
    } else {
      RunKeepsInv(actions, states, k - 1);
      StepKeepsInv(states[k - 1], actions[k - 1]);
    }
  }

  /** No thread touches a monitor that is not allocated, or a mutex that is not initialised. */
  ghost predicate StepIsSafe(s: State, t: Thread) {
    match PcOf(s, t)
    case InitMutex(o, m) => m in s.heap && !s.heap[m].inited
    case Publish(o, m) => m in s.heap && s.heap[m].inited
    case AwaitMonitor(o, m) => m in s.heap && s.heap[m].inited
    case DestroyMutex(o) => o in s.monitor && s.monitor[o] in s.heap && s.heap[s.monitor[o]].inited
    case FreeMonitor(o) => o in s.monitor && s.monitor[o] in s.heap
    case _ => true
  }

  /**
   In every interleaving: an object gets at most one monitor in its lifetime; every monitor in use has an
   initialised mutex and every step is safe; two threads never hold one object at once, and locks minus
   unlocks is the depth in the mutex; nothing allocated is lost, and nothing is freed twice.
   */
  lemma MonitorsAreSafe(actions: seq<Action>, states: seq<State>, k: nat)
    requires IsRun(actions, states) && k < |states|
    ensures var s := states[k];
      && (forall o: Obj :: Publications(s.log, o) <= 1)
      && (forall o: Obj | InUse(s, o) :: s.monitor[o] in s.heap && s.heap[s.monitor[o]].inited)
      && (forall t :: StepIsSafe(s, t))
      && (forall t: Thread, o: Obj :: Held(s.log, t, o) == Depth(s, t, o))
      && (forall t: Thread, u: Thread, o: Obj | Held(s.log, t, o) > 0 && Held(s.log, u, o) > 0 :: t == u)
      && (forall m: Mon | m < s.next :: Frees(s.log, m) == if m in s.heap then 0 else 1)
      && (forall m | m in s.heap :: (s.heap[m].home in s.monitor && s.monitor[s.heap[m].home] == m) || Builds(s, m))
  {
    var s := states[k];
    RunKeepsInv(actions, states, k);
    forall o ensures Publications(s.log, o) <= 1 {
      assert ObjectOk(s, o);
    }
    forall o: Obj | InUse(s, o) ensures s.monitor[o] in s.heap && s.heap[s.monitor[o]].inited {
      assert ObjectOk(s, o);
    }
    forall t ensures StepIsSafe(s, t) {
      assert ThreadOk(s, t);
      var pc := PcOf(s, t);
      if pc.AwaitMonitor? {
        assert ObjectOk(s, pc.o);
      }
    }
    forall t: Thread, o: Obj ensures Held(s.log, t, o) == Depth(s, t, o) {
      assert ObjectOk(s, o);
    }
    forall t: Thread, u: Thread, o: Obj | Held(s.log, t, o) > 0 && Held(s.log, u, o) > 0 ensures t == u {
      assert ObjectOk(s, o);
    }
    forall m: Mon | m < s.next ensures Frees(s.log, m) == if m in s.heap then 0 else 1 {
      assert MemoryOk(s, m);
    }
    forall m | m in s.heap ensures (s.heap[m].home in s.monitor && s.monitor[s.heap[m].home] == m) || Builds(s, m) {
      assert MemoryOk(s, m);
    }
  }

  // ---------------------------------------------------------------- every call does its work

  /** How often `e` has happened. */
  function Times(log: History, e: Event): nat {
    match log
    case Start => 0
    case After(before, last) => Times(before, e) + (if last == e then 1 else 0)
  }

  /** Creating `o`, and not so far yet that there must be a monitor. */
  predicate Creating(pc: Pc, o: Obj) {
    (pc.AwaitGlobal? || pc.Test? || pc.Alloc? || pc.InitMutex? || pc.Publish?) && pc.o == o
  }

  predicate Locking(pc: Pc, o: Obj) {
    pc.AwaitMonitor? && pc.o == o
  }

  /** What the calls that `t` made for `o`, counted in `calls`, have come to. */
  predicate Answered(calls: multiset<Action>, s: State, t: Thread, o: Obj) {
    && calls[Lock(t, o)] == Times(s.log, Locked(t, o)) + (if Locking(PcOf(s, t), o) then 1 else 0)
    && calls[Unlock(t, o)] == Times(s.log, Unlocked(t, o))
    && (Create(t, o) in calls ==> o in s.monitor || o in s.doomed || Creating(PcOf(s, t), o))
    && (Destroy(t, o) in calls ==>
          o in s.doomed && s.doomed[o] == t && (o !in s.monitor || (Destroys(PcOf(s, t)) && PcOf(s, t).o == o)))
  }

  lemma AnsweredNext(calls: multiset<Action>, s: State, a: Action, t: Thread, o: Obj)
    requires Enabled(s, a) && ThreadOk(s, a.t) && Answered(calls, s, t, o)
    requires a.Go? ==> ObjectOk(s, PcOf(s, a.t).o)
    ensures Answered(calls + multiset{a}, Apply(s, a), t, o)
  {
    if a.Go? {
      assert a != Lock(t, o) && a != Unlock(t, o) && a != Create(t, o) && a != Destroy(t, o);
      GoAnswers(calls, s, a.t, t, o);
    }
  }

  lemma GoAnswers(calls: multiset<Action>, s: State, u: Thread, t: Thread, o: Obj)
    requires Enabled(s, Go(u)) && ThreadOk(s, u) && Answered(calls, s, t, o) && ObjectOk(s, PcOf(s, u).o)
    ensures Answered(calls, Continue(s, u), t, o)
  {
    if HoldsGlobal(PcOf(s, u)) {
      BuildingAnswers(calls, s, u, t, o);
    }
  }

  lemma BuildingAnswers(calls: multiset<Action>, s: State, u: Thread, t: Thread, o: Obj)
    requires ThreadOk(s, u) && HoldsGlobal(PcOf(s, u)) && Answered(calls, s, t, o)
    ensures Answered(calls, Continue(s, u), t, o)
  {
  }

  /**
   In every run: a lock call adds exactly one `Locked` when it is over, and an unlock exactly one `Unlocked`; when
   a create is over the object has a monitor, until it is destroyed; when a destroy is over it has none.
   */
  lemma {:induction false} CallsAreAnswered(actions: seq<Action>, states: seq<State>, k: nat, t: Thread, o: Obj)
    requires IsRun(actions, states) && k < |states|
    ensures Answered(multiset(actions[..k]), states[k], t, o)
    decreases k
  {
    if k > 0 {
      CallsAreAnswered(actions, states, k - 1, t, o);
      RunKeepsInv(actions, states, k - 1);
      assert actions[..k] == actions[..k - 1] + [actions[k - 1]];
      InvAnswers(multiset(actions[..k - 1]), states[k - 1], actions[k - 1], t, o);
    }
  }

  lemma InvAnswers(calls: multiset<Action>, s: State, a: Action, t: Thread, o: Obj)
    requires Inv(s) && Enabled(s, a) && Answered(calls, s, t, o)
    ensures Answered(calls + multiset{a}, Apply(s, a), t, o)
  {
    assert ThreadOk(s, a.t);
    if a.Go? {
      assert ObjectOk(s, PcOf(s, a.t).o);
    }
    AnsweredNext(calls, s, a, t, o);
  }

  /** A monitor in use is free exactly when every thread has unlocked it as often as it has locked it. */
  lemma FreeIffBalanced(actions: seq<Action>, states: seq<State>, k: nat, o: Obj)
    requires IsRun(actions, states) && k < |states| && InUse(states[k], o)
    ensures Unowned(states[k], o) <==>
      forall t: Thread :: Times(states[k].log, Locked(t, o)) == Times(states[k].log, Unlocked(t, o))
  {
    var s := states[k];
    RunKeepsInv(actions, states, k);
    assert ObjectOk(s, o);
    forall t: Thread
      ensures Times(s.log, Locked(t, o)) - Times(s.log, Unlocked(t, o)) == Depth(s, t, o)
    {
      HeldIsDifference(s.log, t, o);
    }
    if !Unowned(s, o) {
      var t := s.heap[s.monitor[o]].owner.value;
      assert Depth(s, t, o) > 0;
    }
  }

  lemma {:induction false} HeldIsDifference(log: History, t: Thread, o: Obj)
    ensures Held(log, t, o) == Times(log, Locked(t, o)) - Times(log, Unlocked(t, o))
  {
    if log.After? {
      HeldIsDifference(log.before, t, o);
    }
  }
}
