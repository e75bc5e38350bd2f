/** The bounded connection queue of the worker-pool server, as a step system: any number of threads push,
    pop and shut down, interleaved arbitrarily, with a mutex, two condition variables and spurious wakeups. */
module WorkerQueue {

  const QUEUE_SIZE := 32

  type Tid = nat

  /** What a thread is calling. Stop is the shutdown handler. */
  datatype Op = Push(sd: int) | Pop | Stop

  /** Where a thread is. Testing and Passed hold the mutex: before the waiting loop's test, and after the loop. */
  datatype Phase = Outside | Entering(op: Op) | Testing(op: Op) | Asleep(op: Op) | Woken(op: Op) | Passed(op: Op)

  /** pushed and popped record the descriptors that ever went in and out; stopped records a broadcast. */
  datatype State = State(
    slots: seq<int>, head: nat, tail: nat, count: int,
    running: bool, owner: set<Tid>, phase: map<Tid, Phase>,
    pushed: seq<int>, popped: seq<int>, stopped: bool)

  datatype Action =
    | Call(t: Tid, op: Op)
    | Lock(t: Tid)
    | Wait(t: Tid)
    | Pass(t: Tid)
    | Finish(t: Tid, woken: set<Tid>)
    | Spurious(t: Tid)

  // ----- Steps -----

  /** The loop test: the queue is full, or empty, and the server still runs. */
  predicate MustWait(s: State, op: Op) {
    s.running && match op
      case Push(_) => s.count == QUEUE_SIZE
      case Pop => s.count == 0
      case Stop => false
  }

  predicate SleepsPushing(ph: Phase) {
    ph.Asleep? && ph.op.Push?
  }

  predicate SleepsPopping(ph: Phase) {
    ph.Asleep? && ph.op.Pop?
  }

  ghost function Sleepers(s: State, pushing: bool): set<Tid> {
    set t | t in s.phase && if pushing then SleepsPushing(s.phase[t]) else SleepsPopping(s.phase[t])
  }

  /** A signal wakes one sleeper if there is one. */
  ghost predicate Signals(woken: set<Tid>, sleepers: set<Tid>) {
    woken <= sleepers && if sleepers == {} then woken == {} else |woken| == 1
  }

  /** Whether the operation stores or takes a descriptor once it is past the loop. */
  predicate Acts(s: State, op: Op) {
    match op
    case Push(_) => s.running
    case Pop => s.running || s.count != 0
    case Stop => false
  }

  ghost predicate Enabled(s: State, a: Action) {
    a.t in s.phase && match a
      case Call(t, _) => s.phase[t].Outside?
      case Lock(t) => s.owner == {} && (s.phase[t].Entering? || s.phase[t].Woken?)
      case Wait(t) => s.phase[t].Testing? && MustWait(s, s.phase[t].op)
      case Pass(t) => s.phase[t].Testing? && !MustWait(s, s.phase[t].op)
      case Finish(t, woken) =>
        s.phase[t].Passed? && (match s.phase[t].op
          case Push(_) => if s.running then Signals(woken, Sleepers(s, false)) else woken == {}
          case Pop => if Acts(s, Pop) then Signals(woken, Sleepers(s, true)) else woken == {}
          case Stop => woken == Sleepers(s, false) + Sleepers(s, true))
      case Spurious(t) => s.phase[t].Asleep?
  }

  ghost function Wake(phase: map<Tid, Phase>, woken: set<Tid>): (r: map<Tid, Phase>)
    ensures r.Keys == phase.Keys
  {
    map t | t in phase :: if t in woken && phase[t].Asleep? then Woken(phase[t].op) else phase[t]
  }

  /** Indices stay inside the ring. */
  predicate Shaped(s: State) {
    |s.slots| == QUEUE_SIZE && s.head < QUEUE_SIZE && s.tail < QUEUE_SIZE
  }

  /** The queue fields after an operation is past its loop. */
  ghost function Effect(s: State, op: Op): State
    requires Shaped(s)
  {
    if !Acts(s, op) then (if op.Stop? then s.(stopped := true) else s)
    else match op
      case Push(sd) =>
        s.(slots := s.slots[s.tail := sd], tail := (s.tail + 1) % QUEUE_SIZE, count := s.count + 1,
           pushed := s.pushed + [sd])
      case Pop =>
        s.(head := (s.head + 1) % QUEUE_SIZE, count := s.count - 1, popped := s.popped + [s.slots[s.head]])
      case Stop => s
  }

  ghost function Apply(s: State, a: Action): State
    requires Shaped(s) && Enabled(s, a)
  {
    match a
    case Call(t, op) => s.(phase := s.phase[t := Entering(op)], running := s.running && !op.Stop?)
    case Lock(t) => s.(phase := s.phase[t := Testing(s.phase[t].op)], owner := {t})
    case Wait(t) => s.(phase := s.phase[t := Asleep(s.phase[t].op)], owner := {})
    case Pass(t) => s.(phase := s.phase[t := Passed(s.phase[t].op)])
    case Finish(t, woken) =>
      Effect(s, s.phase[t].op).(phase := Wake(s.phase, woken)[t := Outside], owner := {})
    case Spurious(t) => s.(phase := s.phase[t := Woken(s.phase[t].op)])
  }

  // ----- The invariant -----

  /** The i-th oldest item still queued is where head says. */
  ghost predicate InSlot(s: State, i: nat)
    requires |s.slots| == QUEUE_SIZE && |s.popped| + i < |s.pushed|
  {
    s.slots[(s.head + i) % QUEUE_SIZE] == s.pushed[|s.popped| + i]
  }

  /** The ring holds what was pushed and not yet popped, oldest first. */
  ghost predicate RingInv(s: State) {
    && Shaped(s) && 0 <= s.count <= QUEUE_SIZE
    && s.tail == (s.head + s.count) % QUEUE_SIZE
    && |s.pushed| == |s.popped| + s.count
    && s.popped == s.pushed[..|s.popped|]
    && forall i :: 0 <= i < s.count ==> InSlot(s, i)
  }

  predicate Holds(ph: Phase) {
    ph.Testing? || ph.Passed?
  }

  /** Exactly the owner is inside the critical section; what it saw still holds. */
  ghost predicate MutexInv(s: State) {
    && (forall t :: t in s.owner ==> t in s.phase && Holds(s.phase[t]))
    && (forall t :: t in s.phase && Holds(s.phase[t]) ==> s.owner == {t})
    && (forall t :: t in s.phase && s.phase[t].Passed? ==> !MustWait(s, s.phase[t].op))
    && (forall t :: t in s.phase && !s.phase[t].Outside? && s.phase[t].op.Stop? ==> !s.running && !s.phase[t].Asleep?)
  }

  /** Threads that have been woken, or hold the mutex, to push or to pop. */
  ghost function Pending(s: State, pushing: bool): set<Tid> {
    set t | t in s.phase && (Holds(s.phase[t]) || s.phase[t].Woken?) &&
      if pushing then s.phase[t].op.Push? else s.phase[t].op.Pop?
  }

  /** No lost wakeup: while someone sleeps, there is a thread under way for every item, or for every free slot. */
  ghost predicate WakeInv(s: State) {
    && (Sleepers(s, false) != {} ==> s.count <= |Pending(s, false)|)
    && (s.running && Sleepers(s, true) != {} ==> QUEUE_SIZE - s.count <= |Pending(s, true)|)
  }

  /** After the broadcast nobody sleeps. */
  ghost predicate StopInv(s: State) {
    s.stopped ==> !s.running && Sleepers(s, false) == {} && Sleepers(s, true) == {}
  }

  ghost predicate Inv(s: State) {
    RingInv(s) && MutexInv(s) && WakeInv(s) && StopInv(s)
  }

  ghost predicate Init(s: State) {
    && |s.slots| == QUEUE_SIZE && s.head == s.tail == s.count == 0
    && s.running && s.owner == {} && s.pushed == s.popped == [] && !s.stopped
    && forall t :: t in s.phase ==> s.phase[t].Outside?
  }

  // ----- Every step keeps the invariant -----

  lemma SlotsApart(head: nat, i: nat, j: nat)
    requires head < QUEUE_SIZE && i < j < QUEUE_SIZE
    ensures (head + i) % QUEUE_SIZE != (head + j) % QUEUE_SIZE
  {}

  lemma RotatesOn(head: nat, i: nat)
    requires head < QUEUE_SIZE && i < QUEUE_SIZE
    ensures ((head + 1) % QUEUE_SIZE + i) % QUEUE_SIZE == (head + (i + 1)) % QUEUE_SIZE
    ensures ((head + i) % QUEUE_SIZE + 1) % QUEUE_SIZE == (head + (i + 1)) % QUEUE_SIZE
  {}

  lemma PushKeepsRing(s: State, sd: int)
    requires RingInv(s) && s.running && s.count < QUEUE_SIZE
    ensures RingInv(Effect(s, Push(sd)))
  {
    var u := Effect(s, Push(sd));
    RotatesOn(s.head, s.count);
    assert u.popped == u.pushed[..|u.popped|];
    forall i | 0 <= i < u.count
      ensures InSlot(u, i)
    {
      PushedSlot(s, sd, i);
    }
  }

  lemma PushedSlot(s: State, sd: int, i: nat)
    requires RingInv(s) && s.running && i <= s.count < QUEUE_SIZE
    ensures InSlot(Effect(s, Push(sd)), i)
  {
    if i < s.count {
      assert InSlot(s, i);
      SlotsApart(s.head, i, s.count);
    }
  }

  /** The oldest queued item is at head. */
  lemma OldestAtHead(s: State)
    requires RingInv(s) && s.count > 0
    ensures s.slots[s.head] == s.pushed[|s.popped|]
  {
    assert InSlot(s, 0);
  }

  lemma PrefixGrows(pushed: seq<int>, popped: seq<int>, x: int)
    requires |popped| < |pushed| && popped == pushed[..|popped|] && x == pushed[|popped|]
    ensures popped + [x] == pushed[..|popped| + 1]
  {}

  lemma PopKeepsRing(s: State)
    requires RingInv(s) && s.count > 0
    ensures RingInv(Effect(s, Pop))
  {
    var u := Effect(s, Pop);
    RotatesOn(s.head, s.count - 1);
    OldestAtHead(s);
    PrefixGrows(s.pushed, s.popped, s.slots[s.head]);
    forall i | 0 <= i < u.count
      ensures InSlot(u, i)
    {
      NextSlot(s, i);
    }
  }

  lemma NextSlot(s: State, i: nat)
    requires RingInv(s) && i + 1 < s.count
    ensures InSlot(Effect(s, Pop), i)
  {
    assert InSlot(s, i + 1);
    RotatesOn(s.head, i);
  }

  lemma StepKeepsRing(s: State, a: Action)
    requires Inv(s) && Enabled(s, a)
    ensures RingInv(Apply(s, a))
  {
    var s' := Apply(s, a);
    if a.Finish? && Acts(s, s.phase[a.t].op) {
      match s.phase[a.t].op
      case Push(sd) =>
        PushKeepsRing(s, sd);
        SameRing(Effect(s, Push(sd)), s');
      case Pop =>
        PopKeepsRing(s);
        SameRing(Effect(s, Pop), s');
    } else {
      SameRing(s, s');
    }
  }

  lemma SameRing(s: State, u: State)
    requires RingInv(s)
    requires u.slots == s.slots && u.head == s.head && u.tail == s.tail && u.count == s.count
    requires u.pushed == s.pushed && u.popped == s.popped
    ensures RingInv(u)
  {
    forall i | 0 <= i < u.count
      ensures InSlot(u, i)
    {
      assert InSlot(s, i);
    }
  }

  lemma StepKeepsMutex(s: State, a: Action)
    requires Inv(s) && Enabled(s, a)
    ensures MutexInv(Apply(s, a))
  {
    var s', t := Apply(s, a), a.t;
    forall u | u in s'.phase && u != t
      ensures Holds(s'.phase[u]) ==> s'.phase[u] == s.phase[u]
      ensures !s'.phase[u].Outside? ==> !s.phase[u].Outside? && s'.phase[u].op == s.phase[u].op
    {}
    if a.Finish? {
      assert s.owner == {t};
    }
  }

  lemma StepKeepsStop(s: State, a: Action)
    requires Inv(s) && Enabled(s, a)
    ensures StopInv(Apply(s, a))
  {
    var s', t := Apply(s, a), a.t;
    if s'.stopped {
      forall u | u in s'.phase
        ensures !SleepsPushing(s'.phase[u]) && !SleepsPopping(s'.phase[u])
      {
        if s.stopped {
          assert u !in Sleepers(s, false) && u !in Sleepers(s, true);
        } else {
          assert s.phase[t].op == Stop;
          assert u in Sleepers(s, false) + Sleepers(s, true) || !s.phase[u].Asleep? || s.phase[u].op.Stop?;
        }
      }
      assert Sleepers(s', false) == {} && Sleepers(s', true) == {};
    }
  }

  // ----- No lost wakeup -----

  ghost predicate Concerns(op: Op, pushing: bool) {
    if pushing then op.Push? else op.Pop?
  }

  predicate UnderWay(ph: Phase) {
    Holds(ph) || ph.Woken?
  }

  /** A thread that changes its phase moves in or out of the two sets. */
  lemma OneThreadMoves(s: State, u: State, t: Tid, ph: Phase, pushing: bool)
    requires t in s.phase && u.phase == s.phase[t := ph]
    ensures Sleepers(u, pushing) == Sleepers(s, pushing) - {t} +
      if ph.Asleep? && Concerns(ph.op, pushing) then {t} else {}
    ensures Pending(u, pushing) == Pending(s, pushing) - {t} +
      if UnderWay(ph) && Concerns(ph.op, pushing) then {t} else {}
  {}

  /** Steps other than the end of an operation never leave fewer threads under way, unless they go to sleep. */
  lemma MoveKeepsWake(s: State, a: Action, pushing: bool)
    requires Inv(s) && Enabled(s, a) && !a.Finish?
    ensures var u := Apply(s, a);
      if a.Wait? && Concerns(s.phase[a.t].op, pushing) then (if pushing then u.count == QUEUE_SIZE else u.count == 0)
      else Sleepers(u, pushing) <= Sleepers(s, pushing) && Pending(s, pushing) <= Pending(u, pushing)
  {
    var u := Apply(s, a);
    OneThreadMoves(s, u, a.t, u.phase[a.t], pushing);
  }

  /** A thread that leaves and the ones it wakes move in and out of the two sets. */
  lemma WokenMove(s: State, u: State, t: Tid, woken: set<Tid>, pushing: bool)
    requires t in s.phase && s.phase[t].Passed? && u.phase == Wake(s.phase, woken)[t := Outside]
    ensures Sleepers(u, pushing) == Sleepers(s, pushing) - woken * Sleepers(s, pushing)
    ensures Pending(u, pushing) == Pending(s, pushing) - {t} + woken * Sleepers(s, pushing)
  {}

  /** The end of an operation takes the thread out and moves the woken ones. */
  lemma FinishMoves(s: State, a: Action, pushing: bool)
    requires Inv(s) && Enabled(s, a) && a.Finish?
    ensures var u := Apply(s, a); var mine := a.woken * Sleepers(s, pushing);
      && Sleepers(u, pushing) == Sleepers(s, pushing) - mine
      && Pending(u, pushing) == Pending(s, pushing) - {a.t} + mine
  {
    WokenMove(s, Apply(s, a), a.t, a.woken, pushing);
  }

  /** How many are under way after the operation. */
  lemma FinishCounts(s: State, a: Action, pushing: bool)
    requires Inv(s) && Enabled(s, a) && a.Finish?
    ensures var u := Apply(s, a); var mine := a.woken * Sleepers(s, pushing);
      && Sleepers(u, pushing) == Sleepers(s, pushing) - mine
      && if Concerns(s.phase[a.t].op, pushing) then |Pending(u, pushing)| >= |Pending(s, pushing)| - 1
         else |Pending(u, pushing)| == |Pending(s, pushing)| + |mine|
  {
    var mine := a.woken * Sleepers(s, pushing);
    FinishMoves(s, a, pushing);
    assert Pending(s, pushing) !! mine;
    SizeAfter(Pending(s, pushing), a.t, mine);
    assert Concerns(s.phase[a.t].op, pushing) || a.t !in Pending(s, pushing);
  }

  lemma SizeAfter(p: set<Tid>, t: Tid, mine: set<Tid>)
    requires p !! mine
    ensures |p - {t} + mine| == |p| + |mine| - if t in p then 1 else 0
  {
    assert t in p || p - {t} == p;
  }

  /** The woken threads, seen from either side. */
  lemma WokenSides(s: State, a: Action)
    requires Inv(s) && Enabled(s, a) && a.Finish?
    ensures match s.phase[a.t].op
      case Push(_) => s.running ==>
        a.woken * Sleepers(s, false) == a.woken && (Sleepers(s, false) != {} ==> |a.woken| == 1)
      case Pop => Acts(s, Pop) ==>
        a.woken * Sleepers(s, true) == a.woken && (Sleepers(s, true) != {} ==> |a.woken| == 1)
      case Stop =>
        Sleepers(s, false) - a.woken * Sleepers(s, false) == {} && Sleepers(s, true) - a.woken * Sleepers(s, true) == {}
  {}

  lemma FinishKeepsWake(s: State, a: Action)
    requires Inv(s) && Enabled(s, a) && a.Finish?
    ensures WakeInv(Apply(s, a))
  {
    FinishCounts(s, a, false);
    FinishCounts(s, a, true);
    WokenSides(s, a);
    var u := Apply(s, a);
    assert Sleepers(u, false) <= Sleepers(s, false) && Sleepers(u, true) <= Sleepers(s, true);
    assert u.running == s.running;
    if Acts(s, s.phase[a.t].op) {
      assert u.count == s.count + if s.phase[a.t].op.Push? then 1 else -1;
    } else {
      assert u.count == s.count && (s.phase[a.t].op.Pop? ==> s.count == 0);
    }
  }

  lemma StepKeepsWake(s: State, a: Action)
    requires Inv(s) && Enabled(s, a)
    ensures WakeInv(Apply(s, a))
  {
    if a.Finish? {
      FinishKeepsWake(s, a);
    } else {
      MoveCounts(s, a, false);
      MoveCounts(s, a, true);
    }
  }

  lemma MoveCounts(s: State, a: Action, pushing: bool)
    requires Inv(s) && Enabled(s, a) && !a.Finish?
    ensures var u := Apply(s, a);
      if a.Wait? && Concerns(s.phase[a.t].op, pushing) then (if pushing then u.count == QUEUE_SIZE else u.count == 0)
      else (Sleepers(u, pushing) != {} ==> Sleepers(s, pushing) != {}) && |Pending(s, pushing)| <= |Pending(u, pushing)|
  {
    MoveKeepsWake(s, a, pushing);
    SubsetSize(Pending(s, pushing), Pending(Apply(s, a), pushing));
  }

  lemma SubsetSize(a: set<Tid>, b: set<Tid>)
    ensures a <= b ==> |a| <= |b|
  {
    if a <= b {
      assert b == a + (b - a);
    }
  }

  lemma StepKeepsInv(s: State, a: Action)
    requires Inv(s) && Enabled(s, a)
    ensures Inv(Apply(s, a))
  {
    StepKeepsRing(s, a);
    StepKeepsMutex(s, a);
    StepKeepsWake(s, a);
    StepKeepsStop(s, a);
  }

  // ----- All runs -----

  /** The i-th state follows from the one before by an enabled action. */
  ghost predicate Follows(run: seq<State>, i: nat)
    requires 0 < i < |run|
  {
    var s := run[i - 1];
    Shaped(s) && exists a :: Enabled(s, a) && run[i] == Apply(s, a)
  }

  ghost predicate IsRun(run: seq<State>) {
    run != [] && Init(run[0]) && forall i: nat :: 0 < i < |run| ==> Follows(run, i)
  }

  /** Runs are what the steps generate: an initial state is a run, and every enabled action extends one. */
  lemma InitialRun(s: State)
    requires Init(s)
    ensures IsRun([s])
  {}

  lemma RunExtends(run: seq<State>, a: Action)
    requires IsRun(run) && Enabled(run[|run| - 1], a)
    ensures Shaped(run[|run| - 1]) && IsRun(run + [Apply(run[|run| - 1], a)])
  {
    RunKeepsInv(run);
    var more := run + [Apply(run[|run| - 1], a)];
    forall i: nat | 0 < i < |more|
      ensures Follows(more, i)
    {
      assert i < |run| ==> Follows(run, i);
    }
  }

  lemma RunPrefix(run: seq<State>, k: nat)
    requires IsRun(run) && 0 < k <= |run|
    ensures IsRun(run[..k])
  {
    forall i: nat | 0 < i < k
      ensures Follows(run[..k], i)
    {
      assert Follows(run, i);
    }
  }

  lemma {:induction false} RunKeepsInv(run: seq<State>)
    requires IsRun(run)
    ensures Inv(run[|run| - 1])
  {
    var k := |run| - 1;
    if k == 0 {
      InitHolds(run[0]);
    } else {
      RunPrefix(run, k);
      RunKeepsInv(run[..k]);
      assert Follows(run, k);
      var a :| Enabled(run[k - 1], a) && run[k] == Apply(run[k - 1], a);
      StepKeepsInv(run[k - 1], a);
    }
  }

  lemma InitHolds(s: State)
    requires Init(s)
    ensures Inv(s)
  {
    assert Sleepers(s, false) == {} && Sleepers(s, true) == {};
  }

  /** First in, first out, under every interleaving: what was popped is the oldest part of what was pushed,
      and what remains is in the ring. */
  lemma PoppedIsPrefix(run: seq<State>)
    requires IsRun(run)
    ensures var s := run[|run| - 1]; s.popped <= s.pushed && |s.pushed| - |s.popped| == s.count <= QUEUE_SIZE
    ensures var s := run[|run| - 1]; |s.slots| == QUEUE_SIZE && forall i :: 0 <= i < s.count ==> InSlot(s, i)
  {
    RunKeepsInv(run);
  }

  /** No lost wakeup: when nobody holds the mutex and a worker still sleeps unsignalled, a signalled worker is
      on its way for every queued descriptor; likewise for free slots while the server runs. */
  lemma NoLostWakeup(run: seq<State>)
    requires IsRun(run) && run[|run| - 1].owner == {}
    ensures var s := run[|run| - 1];
      && (Sleepers(s, false) != {} ==> s.count <= |set t | t in s.phase && s.phase[t] == Woken(Pop)|)
      && (s.running && Sleepers(s, true) != {} ==>
           QUEUE_SIZE - s.count <= |set t | t in s.phase && s.phase[t].Woken? && s.phase[t].op.Push?|)
  {
    RunKeepsInv(run);
    var s := run[|run| - 1];
    assert Pending(s, false) == set t | t in s.phase && s.phase[t] == Woken(Pop);
    assert Pending(s, true) == set t | t in s.phase && s.phase[t].Woken? && s.phase[t].op.Push?;
  }

  // ----- A plain queue as the reference -----

  /** What threads called, and what went in and out, told from the actions alone. */
  datatype Fifo = Fifo(pushed: seq<int>, popped: seq<int>)

  /** The operation that t called last. */
  ghost function LastCalled(acts: seq<Action>, t: Tid): Op {
    if acts == [] then Stop
    else
      var a := acts[|acts| - 1];
      if a.Call? && a.t == t then a.op else LastCalled(acts[..|acts| - 1], t)
  }

  /** Nobody has called the shutdown handler. */
  ghost predicate StillRunning(acts: seq<Action>) {
    forall i :: 0 <= i < |acts| && acts[i].Call? ==> !acts[i].op.Stop?
  }

  /** A queue without ring, locks or waiting: a push that ends while the server runs adds its descriptor, a pop that
      ends while something is queued takes the oldest one. */
  ghost function FifoOf(acts: seq<Action>): (f: Fifo)
    ensures |f.popped| <= |f.pushed|
  {
    if acts == [] then Fifo([], [])
    else
      var before, a := acts[..|acts| - 1], acts[|acts| - 1];
      var f := FifoOf(before);
      if !a.Finish? then f
      else match LastCalled(before, a.t)
        case Push(sd) => if StillRunning(before) then f.(pushed := f.pushed + [sd]) else f
        case Pop =>
          if |f.popped| < |f.pushed| then f.(popped := f.popped + [f.pushed[|f.popped|]]) else f
        case Stop => f
  }

  ghost predicate Does(run: seq<State>, acts: seq<Action>, i: nat)
    requires i < |acts| < |run|
  {
    Shaped(run[i]) && Enabled(run[i], acts[i]) && run[i + 1] == Apply(run[i], acts[i])
  }

  /** The run made by these actions. */
  ghost predicate Performs(run: seq<State>, acts: seq<Action>) {
    |run| == |acts| + 1 && Init(run[0]) && forall i: nat :: i < |acts| ==> Does(run, acts, i)
  }

  /** The state agrees with what was called. */
  ghost predicate TracksCalls(s: State, acts: seq<Action>) {
    && s.running == StillRunning(acts)
    && forall t :: t in s.phase && !s.phase[t].Outside? ==> s.phase[t].op == LastCalled(acts, t)
  }

  /** The state agrees with the plain queue. */
  ghost predicate Tracks(s: State, acts: seq<Action>) {
    TracksCalls(s, acts) && s.pushed == FifoOf(acts).pushed && s.popped == FifoOf(acts).popped
  }

  lemma OneMoreAction(acts: seq<Action>, a: Action)
    ensures StillRunning(acts + [a]) == (StillRunning(acts) && !(a.Call? && a.op.Stop?))
    ensures forall t :: LastCalled(acts + [a], t) == if a.Call? && a.t == t then a.op else LastCalled(acts, t)
  {
    var more := acts + [a];
    assert more[..|acts|] == acts;
    assert more[|acts|] == a && forall i :: 0 <= i < |acts| ==> more[i] == acts[i];
  }

  lemma StepTracksCalls(s: State, acts: seq<Action>, a: Action)
    requires Shaped(s) && Enabled(s, a) && TracksCalls(s, acts)
    ensures TracksCalls(Apply(s, a), acts + [a])
  {
    OneMoreAction(acts, a);
  }

  lemma StepTracksQueue(s: State, acts: seq<Action>, a: Action)
    requires Inv(s) && Enabled(s, a) && Tracks(s, acts)
    ensures var u, f := Apply(s, a), FifoOf(acts + [a]); u.pushed == f.pushed && u.popped == f.popped
  {
    var more := acts + [a];
    assert more[..|more| - 1] == acts && more[|more| - 1] == a;
    if s.count > 0 {
      OldestAtHead(s);
    }
  }

  /** Every run is made by some actions. */
  lemma {:induction false} RunIsPerformed(run: seq<State>) returns (acts: seq<Action>)
    requires IsRun(run)
    ensures Performs(run, acts)
  {
    var k := |run| - 1;
    if k == 0 {
      acts := [];
    } else {
      RunPrefix(run, k);
      var before := RunIsPerformed(run[..k]);
      assert Follows(run, k);
      var a :| Enabled(run[k - 1], a) && run[k] == Apply(run[k - 1], a);
      acts := before + [a];
      forall i: nat | i < |acts|
        ensures Does(run, acts, i)
      {
        assert i < |before| ==> Does(run[..k], before, i);
      }
    }
  }

  lemma PerformedIsRun(run: seq<State>, acts: seq<Action>)
    requires Performs(run, acts)
    ensures IsRun(run)
  {
    forall i: nat | 0 < i < |run|
      ensures Follows(run, i)
    {
      assert Does(run, acts, i - 1);
    }
  }

  /** For every interleaving: what has gone in and out is what a plain queue makes of the same calls, in the order in
      which they ended. */
  lemma {:induction false} RefinesFifo(run: seq<State>, acts: seq<Action>)
    requires Performs(run, acts)
    ensures Tracks(run[|run| - 1], acts)
    decreases |acts|
  {
    PerformedIsRun(run, acts);
    var k := |acts|;
    if k > 0 {
      PerformsPrefix(run, acts, k - 1);
      RefinesFifo(run[..k], acts[..k - 1]);
      EveryStateKeepsInv(run, k - 1);
      assert Does(run, acts, k - 1);
      assert acts == acts[..k - 1] + [acts[k - 1]];
      StepTracksCalls(run[k - 1], acts[..k - 1], acts[k - 1]);
      StepTracksQueue(run[k - 1], acts[..k - 1], acts[k - 1]);
    }
  }

  lemma PerformsPrefix(run: seq<State>, acts: seq<Action>, k: nat)
    requires Performs(run, acts) && k <= |acts|
    ensures Performs(run[..k + 1], acts[..k])
  {
    var run', acts' := run[..k + 1], acts[..k];
    forall i: nat | i < k
      ensures Does(run', acts', i)
    {
      assert Does(run, acts, i);
    }
  }

  // ----- After the shutdown broadcast -----

  lemma EveryStateKeepsInv(run: seq<State>, k: nat)
    requires IsRun(run) && k < |run|
    ensures Inv(run[k])
  {
    RunPrefix(run, k + 1);
    RunKeepsInv(run[..k + 1]);
  }

  /** The broadcast is never undone, and the threads stay the same. */
  lemma {:induction false} StoppedStays(run: seq<State>, i: nat, j: nat)
    requires IsRun(run) && i <= j < |run| && run[i].stopped
    ensures run[j].stopped && run[j].phase.Keys == run[i].phase.Keys
    decreases j
  {
    if i < j {
      StoppedStays(run, i, j - 1);
      assert Follows(run, j);
    }
  }

  /** After the shutdown broadcast no thread is asleep on either condition, then or later. */
  lemma NobodyStaysBlocked(run: seq<State>, i: nat, j: nat, t: Tid)
    requires IsRun(run) && i <= j < |run| && run[i].stopped && t in run[j].phase
    ensures !run[j].phase[t].Asleep?
  {
    StoppedStays(run, i, j);
    EveryStateKeepsInv(run, j);
    assert t !in Sleepers(run[j], false) && t !in Sleepers(run[j], true);
  }

  /** How many steps a thread that is not asleep takes to get out. */
  function Remaining(ph: Phase): nat {
    match ph
    case Outside => 0
    case Passed(_) => 1
    case Testing(_) => 2
    case _ => 3
  }

  ghost function AtLeast(s: State, k: nat): set<Tid> {
    set t | t in s.phase && Remaining(s.phase[t]) >= k
  }

  /** The steps of all threads together. */
  ghost function Outstanding(s: State): nat {
    |AtLeast(s, 1)| + |AtLeast(s, 2)| + |AtLeast(s, 3)|
  }

  /** After the broadcast the mutex can be taken, or its owner can go on: no caller is ever stuck. */
  lemma SomeoneCanStep(s: State, t: Tid) returns (a: Action)
    requires Inv(s) && s.stopped && t in s.phase && !s.phase[t].Outside?
    ensures Enabled(s, a) && (a.Lock? || a.Pass? || a.Finish?)
  {
    assert Sleepers(s, false) == {} && Sleepers(s, true) == {};
    if s.owner == {} {
      assert t !in Sleepers(s, false) && t !in Sleepers(s, true);
      a := Lock(t);
    } else {
      var u :| u in s.owner;
      a := if s.phase[u].Testing? then Pass(u) else Finish(u, {});
    }
  }

  /** After the broadcast each step other than a new call brings its thread one step nearer to the way out and moves
      nobody else. */
  lemma StepGetsNearer(s: State, a: Action)
    requires Inv(s) && s.stopped && Enabled(s, a) && !a.Call?
    ensures a.Lock? || a.Pass? || a.Finish?
    ensures var u := Apply(s, a);
      Remaining(u.phase[a.t]) == Remaining(s.phase[a.t]) - 1 && u.phase == s.phase[a.t := u.phase[a.t]]
  {
    forall t | t in s.phase
      ensures !s.phase[t].Asleep?
    {
      assert t !in Sleepers(s, false) && t !in Sleepers(s, true);
    }
  }

  lemma StepLowersOutstanding(s: State, a: Action)
    requires Inv(s) && s.stopped && Enabled(s, a) && !a.Call?
    ensures Outstanding(Apply(s, a)) == Outstanding(s) - 1
  {
    StepGetsNearer(s, a);
    var u, r := Apply(s, a), Remaining(s.phase[a.t]);
    forall k: nat | k >= 1
      ensures AtLeast(u, k) == AtLeast(s, k) - if k == r then {a.t} else {}
    {}
    assert a.t in AtLeast(s, r);
  }

  /** The j-th state comes from the one before by a step that is not a new call. */
  ghost predicate StepsInside(run: seq<State>, j: nat)
    requires 0 < j < |run|
  {
    var s := run[j - 1];
    Shaped(s) && exists a :: Enabled(s, a) && !a.Call? && run[j] == Apply(s, a)
  }

  ghost predicate NoCallsFrom(run: seq<State>, i: nat) {
    forall j: nat :: i < j < |run| ==> StepsInside(run, j)
  }

  /** However the threads interleave after the broadcast, the steps made and the steps left add up to the same number:
      without new calls, the calls under way are over after exactly that many steps. */
  lemma {:induction false} StepsAddUp(run: seq<State>, i: nat, j: nat)
    requires IsRun(run) && i <= j < |run| && run[i].stopped && NoCallsFrom(run, i)
    ensures j - i + Outstanding(run[j]) == Outstanding(run[i])
    decreases j
  {
    if i < j {
      StepsAddUp(run, i, j - 1);
      StoppedStays(run, i, j - 1);
      EveryStateKeepsInv(run, j - 1);
      InsideLowers(run, j);
    }
  }

  lemma InsideLowers(run: seq<State>, j: nat)
    requires 0 < j < |run| && Inv(run[j - 1]) && run[j - 1].stopped && StepsInside(run, j)
    ensures Outstanding(run[j]) == Outstanding(run[j - 1]) - 1
  {
    var a :| Enabled(run[j - 1], a) && !a.Call? && run[j] == Apply(run[j - 1], a);
    StepLowersOutstanding(run[j - 1], a);
  }

  lemma OutstandingBound(s: State)
    ensures Outstanding(s) <= 3 * |s.phase|
    ensures Outstanding(s) == 0 <==> forall t :: t in s.phase ==> s.phase[t].Outside?
  {
    SubsetSize(AtLeast(s, 1), s.phase.Keys);
    SubsetSize(AtLeast(s, 2), AtLeast(s, 1));
    SubsetSize(AtLeast(s, 3), AtLeast(s, 2));
    if t :| t in s.phase && !s.phase[t].Outside? {
      assert t in AtLeast(s, 1);
    } else {
      assert AtLeast(s, 1) == {};
    }
  }

  /** After the broadcast every call under way ends: at most three steps for each thread are left, and as long as some
      thread is not out, a step that is not a new call continues the run. */
  lemma EveryoneGetsOut(run: seq<State>, i: nat)
    requires IsRun(run) && i < |run| && run[i].stopped && NoCallsFrom(run, i)
    ensures |run| - 1 - i <= 3 * |run[i].phase|
    ensures var s := run[|run| - 1];
      || (forall t :: t in s.phase ==> s.phase[t].Outside?)
      || (Shaped(s) && exists a :: Enabled(s, a) && !a.Call? && IsRun(run + [Apply(s, a)]))
  {
    var k := |run| - 1;
    StepsAddUp(run, i, k);
    OutstandingBound(run[i]);
    StoppedStays(run, i, k);
    EveryStateKeepsInv(run, k);
    if t :| t in run[k].phase && !run[k].phase[t].Outside? {
      var a := SomeoneCanStep(run[k], t);
      RunExtends(run, a);
    }
  }

  /** At most one thread is between lock and unlock. */
  lemma MutualExclusion(run: seq<State>, t: Tid, u: Tid)
    requires IsRun(run) && t in run[|run| - 1].phase && u in run[|run| - 1].phase
    requires Holds(run[|run| - 1].phase[t]) && Holds(run[|run| - 1].phase[u])
    ensures t == u
  {
    RunKeepsInv(run);
    var s := run[|run| - 1];
    assert s.owner == {t} && s.owner == {u};
  }

  // ----- The queue itself -----

  /** The shared ring buffer. Its methods are the parts of push and pop that run past the waiting loop. */
  class ConnectionQueue {
    const clientSockets: array<int>
    var head: nat
    var tail: nat
    var count: int

    /** The fields are those of a state of the step system. */
    ghost predicate Mirrors(s: State)
      reads this, clientSockets
    {
      clientSockets[..] == s.slots && head == s.head && tail == s.tail && count == s.count
    }

    constructor ()
      ensures clientSockets.Length == 32 && fresh(clientSockets)
      ensures head == tail == count == 0
    {
      clientSockets := new int[QUEUE_SIZE](_ => 0);
      head, tail, count := 0, 0, 0;
    }

    method Store(sd: int, ghost s: State)
      requires Mirrors(s) && RingInv(s) && s.running && s.count < QUEUE_SIZE
      modifies this, clientSockets
      ensures Mirrors(Effect(s, Push(sd)))
      ensures clientSockets[old(tail)] == sd && tail == (old(tail) + 1) % QUEUE_SIZE && count == old(count) + 1
      ensures forall i :: 0 <= i < QUEUE_SIZE && i != old(tail) ==> clientSockets[i] == old(clientSockets[i])
    {
      clientSockets[tail] := sd;
      tail := (tail + 1) % QUEUE_SIZE;
      count := count + 1;
    }

    /** Takes the oldest descriptor. */
    method Take(ghost s: State) returns (sd: int)
      requires Mirrors(s) && RingInv(s) && s.count > 0
      modifies this
      ensures Mirrors(Effect(s, Pop)) && sd == s.pushed[|s.popped|]
      ensures sd == clientSockets[old(head)] && head == (old(head) + 1) % QUEUE_SIZE && count == old(count) - 1
    {
      OldestAtHead(s);
      sd := clientSockets[head];
      head := (head + 1) % QUEUE_SIZE;
      count := count - 1;
    }
  }
}
