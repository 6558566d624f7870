/**
  While the pool accepts drains and nobody flushes or shuts down, there is one drain at a time
  and events are written in the order in which they were pushed.
 */
module LoggerFifo {
  import opened AsyncLogger

  // ---- The order of the pushed events ---------------------------------------

  /** The events pushed since number from, less the evicted ones. */
  function Survivors(pushed: seq<Event>, evicted: set<int>, from: nat): seq<Item>
    requires from <= |pushed|
    decreases |pushed|
  {
    if |pushed| == from then []
    else
      var k := |pushed| - 1;
      Survivors(pushed[..k], evicted, from) + if k in evicted then [] else [Item(k, pushed[k])]
  }

  lemma {:induction false} SurvivorsAreNumbered(pushed: seq<Event>, evicted: set<int>, from: nat)
    requires from <= |pushed|
    ensures forall x | x in Survivors(pushed, evicted, from) :: from <= x.n < |pushed| && x.e == pushed[x.n]
    ensures forall i, j | 0 <= i < j < |Survivors(pushed, evicted, from)| ::
      Survivors(pushed, evicted, from)[i].n < Survivors(pushed, evicted, from)[j].n
    decreases |pushed|
  {
    if |pushed| > from {
      var k := |pushed| - 1;
      var front := Survivors(pushed[..k], evicted, from);
      SurvivorsAreNumbered(pushed[..k], evicted, from);
      assert forall x | x in front :: pushed[..k][x.n] == pushed[x.n];
      assert forall i | 0 <= i < |front| :: front[i] in front;
    }
  }

  lemma {:induction false} EvictLater(pushed: seq<Event>, evicted: set<int>, n: int, from: nat)
    requires from <= |pushed| <= n
    ensures Survivors(pushed, evicted + {n}, from) == Survivors(pushed, evicted, from)
    decreases |pushed|
  {
    if |pushed| > from {
      EvictLater(pushed[..|pushed| - 1], evicted, n, from);
    }
  }

  lemma SplitLast<T>(front: seq<T>, last: T, a: seq<T>, x: T, b: seq<T>)
    requires front + [last] == a + [x] + b && b != []
    ensures front == a + [x] + b[..|b| - 1] && b[|b| - 1] == last
  {
    var all := a + [x] + b;
    assert all[|all| - 1] == b[|b| - 1];
    assert front == all[..|all| - 1];
    assert all[..|all| - 1] == a + [x] + b[..|b| - 1];
  }

  /** Evicting one event takes it out and leaves the order of the rest. */
  lemma {:induction false} EvictOne(pushed: seq<Event>, evicted: set<int>, from: nat, a: seq<Item>, x: Item,
                                    b: seq<Item>)
    requires from <= |pushed|
    requires Survivors(pushed, evicted, from) == a + [x] + b
    ensures Survivors(pushed, evicted + {x.n}, from) == a + b
    decreases |pushed|, 1
  {
    assert (a + [x] + b)[|a|] == x;
    var k := |pushed| - 1;
    if k in evicted {
      assert Survivors(pushed[..k], evicted, from) == a + [x] + b;
      EvictOne(pushed[..k], evicted, from, a, x, b);
    } else if b == [] {
      EvictLast(pushed, evicted, from, a, x);
      assert a + b == a;
    } else {
      EvictInner(pushed, evicted, from, a, x, b);
    }
  }

  lemma EvictLast(pushed: seq<Event>, evicted: set<int>, from: nat, a: seq<Item>, x: Item)
    requires from < |pushed| && |pushed| - 1 !in evicted
    requires Survivors(pushed, evicted, from) == a + [x] + []
    ensures Survivors(pushed, evicted + {x.n}, from) == a
  {
    var k := |pushed| - 1;
    var front := Survivors(pushed[..k], evicted, from);
    assert front + [Item(k, pushed[k])] == a + [x];
    assert (a + [x])[..|a|] == a && (front + [Item(k, pushed[k])])[..|a|] == front;
    assert (a + [x])[|a|] == x;
    EvictLater(pushed[..k], evicted, k, from);
  }

  lemma {:induction false} EvictInner(pushed: seq<Event>, evicted: set<int>, from: nat, a: seq<Item>, x: Item,
                                      b: seq<Item>)
    requires from < |pushed| && |pushed| - 1 !in evicted && b != []
    requires Survivors(pushed, evicted, from) == a + [x] + b
    ensures Survivors(pushed, evicted + {x.n}, from) == a + b
    decreases |pushed|, 0
  {
    var k := |pushed| - 1;
    var front := Survivors(pushed[..k], evicted, from);
    var b' := b[..|b| - 1];
    SplitLast(front, Item(k, pushed[k]), a, x, b);
    assert (a + [x] + b')[|a|] == x && x in front;
    SurvivorsAreNumbered(pushed[..k], evicted, from);
    EvictOne(pushed[..k], evicted, from, a, x, b');
    assert a + b' + [Item(k, pushed[k])] == a + b;
  }

  lemma PushOne(pushed: seq<Event>, evicted: set<int>, from: nat, e: Event)
    requires from <= |pushed| && |pushed| !in evicted
    ensures Survivors(pushed + [e], evicted, from) == Survivors(pushed, evicted, from) + [Item(|pushed|, e)]
  {
    assert (pushed + [e])[..|pushed|] == pushed;
  }

  // ---- One drain ------------------------------------------------------------

  /** Has claimed the drain, or is it. */
  predicate Holder(pc: Pc) {
    pc.Submitting? || IsDrain(pc)
  }

  predicate Alone(threads: seq<Pc>) {
    forall i, j | 0 <= i < |threads| && 0 <= j < |threads| && Holder(threads[i]) && Holder(threads[j]) :: i == j
  }

  predicate Held(threads: seq<Pc>) {
    exists i :: 0 <= i < |threads| && Holder(threads[i])
  }

  predicate Ordinary(pc: Pc) {
    pc.Enter? || pc.Parked? || pc.Pushed? || pc.Done? || Holder(pc)
  }

  predicate AllOrdinary(threads: seq<Pc>) {
    forall i | 0 <= i < |threads| :: Ordinary(threads[i])
  }

  function Batch(pc: Pc): seq<Item> {
    if pc.DrainWrite? then pc.batch else []
  }

  function InFlight(threads: seq<Pc>): seq<Item> {
    if threads == [] then [] else Batch(threads[0]) + InFlight(threads[1..])
  }

  lemma {:induction false} NoneInFlight(threads: seq<Pc>)
    requires forall i | 0 <= i < |threads| :: Batch(threads[i]) == []
    ensures InFlight(threads) == []
  {
    hide Batch;
    if threads != [] {
      NoneInFlight(threads[1..]);
    }
  }

  lemma {:induction false} OneInFlight(threads: seq<Pc>, k: nat)
    requires k < |threads| && forall i | 0 <= i < |threads| && i != k :: Batch(threads[i]) == []
    ensures InFlight(threads) == Batch(threads[k])
  {
    hide Batch;
    if k == 0 {
      NoneInFlight(threads[1..]);
    } else {
      OneInFlight(threads[1..], k - 1);
    }
  }

  /** A thread that does not hold the drain moves on without touching it. */
  lemma {:induction false} SameInFlight(threads: seq<Pc>, i: nat, pc: Pc)
    requires i < |threads| && Batch(threads[i]) == Batch(pc)
    ensures InFlight(threads[i := pc]) == InFlight(threads)
  {
    hide Batch;
    if i > 0 {
      assert threads[i := pc][1..] == threads[1..][i - 1 := pc];
      SameInFlight(threads[1..], i - 1, pc);
    } else {
      assert threads[i := pc][1..] == threads[1..];
    }
  }

  lemma {:induction false} AppendInFlight(threads: seq<Pc>, pc: Pc)
    requires Batch(pc) == []
    ensures InFlight(threads + [pc]) == InFlight(threads)
  {
    hide Batch;
    if threads == [] {
      assert threads + [pc] == [pc];
    } else {
      assert (threads + [pc])[1..] == threads[1..] + [pc];
      AppendInFlight(threads[1..], pc);
    }
  }

  // ---- The invariant --------------------------------------------------------

  /** An enabled logger with nothing under way. */
  predicate Quiet(s: State) {
    && s.control == Idle && s.async && s.running && s.pool.live && !s.scheduled && !s.flushRequested && s.queue == []
    && (forall i | 0 <= i < |s.threads| :: s.threads[i].Done?)
    && (forall n | n in s.history.evicted :: n < |s.history.pushed|)
  }

  /** What was written since s0, what is in flight and what is queued. */
  function Pipeline(s0: State, s: State): seq<Item>
    requires |s0.written| <= |s.written|
  {
    s.written[|s0.written|..] + InFlight(s.threads) + s.queue
  }

  predicate Steady(s: State) {
    && s.control == Idle && s.async && s.running && s.pool.live && !s.flushRequested
    && AllOrdinary(s.threads) && Alone(s.threads) && (s.scheduled <==> Held(s.threads))
    && (forall n | n in s.history.evicted :: n < |s.history.pushed|)
  }

  predicate InOrder(s0: State, s: State) {
    && s0.written <= s.written && |s0.history.pushed| <= |s.history.pushed|
    && Pipeline(s0, s) == Survivors(s.history.pushed, s.history.evicted, |s0.history.pushed|)
  }

  /** Only producers and drains move, and the pool accepts. */
  predicate Accepting(s: State, a: Action) {
    a.Log? || (a.Thread? && a.i < |s.threads| && (s.threads[a.i].Submitting? ==> a.yes))
  }

  predicate AcceptingRun(s: State, acts: seq<Action>)
    decreases |acts|
  {
    acts == [] || (Can(s, acts[0]) && Accepting(s, acts[0]) && AcceptingRun(Step(s, acts[0]), acts[1..]))
  }

  // ---- One step keeps one drain ---------------------------------------------

  lemma Updated(threads: seq<Pc>, i: nat, pc: Pc)
    requires i < |threads| && AllOrdinary(threads) && Alone(threads) && Ordinary(pc)
    requires Holder(pc) ==> Holder(threads[i]) || !Held(threads)
    ensures AllOrdinary(threads[i := pc]) && Alone(threads[i := pc])
    ensures Held(threads[i := pc]) <==> Holder(pc) || (Held(threads) && !Holder(threads[i]))
  {
    hide Ordinary, Holder;
    var after := threads[i := pc];
    if Holder(pc) {
      assert Holder(after[i]);
    } else if Held(threads) && !Holder(threads[i]) {
      var k :| 0 <= k < |threads| && Holder(threads[k]);
      assert Holder(after[k]);
    }
  }

  lemma Appended(threads: seq<Pc>, pc: Pc)
    requires AllOrdinary(threads) && Alone(threads) && Ordinary(pc)
    requires Holder(pc) ==> !Held(threads)
    ensures AllOrdinary(threads + [pc]) && Alone(threads + [pc])
    ensures Held(threads + [pc]) <==> Holder(pc) || Held(threads)
  {
    hide Ordinary, Holder;
    var after := threads + [pc];
    assert after[|threads|] == pc;
    if Held(threads) {
      var k :| 0 <= k < |threads| && Holder(threads[k]);
      assert Holder(after[k]);
    }
  }

  lemma MovedSteady(s: State, t: State, i: nat, pc: Pc)
    requires Steady(s) && i < |s.threads| && Ordinary(pc)
    requires t.threads == s.threads[i := pc] && t.pool == s.pool && t.control == s.control
    requires t.async == s.async && t.running == s.running && !t.flushRequested
    requires forall n | n in t.history.evicted :: n < |t.history.pushed|
    requires Holder(pc) ==> Holder(s.threads[i]) || !s.scheduled
    requires t.scheduled <==> Holder(pc) || (s.scheduled && !Holder(s.threads[i]))
    ensures Steady(t)
  {
    hide Ordinary, Holder, AllOrdinary, Alone, Held;
    Updated(s.threads, i, pc);
  }

  lemma HeldHere(s: State, i: nat)
    requires Steady(s) && i < |s.threads|
    ensures Holder(s.threads[i]) ==> s.scheduled
    ensures Ordinary(s.threads[i])
  {
  }

  lemma SubmittingSteady(s: State, i: nat)
    requires Steady(s) && i < |s.threads| && s.threads[i].Submitting?
    ensures Steady(Submit(s, i, Done, Failed, true))
  {
    hide AllOrdinary, Alone, Held;
    HeldHere(s, i);
    Updated(s.threads, i, Done);
    Appended(s.threads[i := Done], Queued(s.pool.owns));
  }

  /** Whatever is queued has a number below the next one. */
  lemma HeadIsNumbered(s0: State, s: State)
    requires InOrder(s0, s) && s.queue != []
    ensures s.queue[0].n < |s.history.pushed|
  {
    var pipe := Pipeline(s0, s);
    assert pipe[|pipe| - |s.queue|] == s.queue[0];
    SurvivorsAreNumbered(s.history.pushed, s.history.evicted, |s0.history.pushed|);
    assert s.queue[0] in pipe;
  }

  lemma EnterSteady(s0: State, s: State, i: nat, e: Event)
    requires Steady(s) && InOrder(s0, s) && i < |s.threads| && s.threads[i] == Enter(e)
    ensures Steady(EnterStep(s, i, e))
  {
    hide AllOrdinary, Alone, Held, InOrder;
    if Full(s) {
      HeadIsNumbered(s0, s);
    }
    var t := EnterStep(s, i, e);
    MovedSteady(s, t, i, t.threads[i]);
  }

  lemma ProducerSteady(s0: State, s: State, i: nat, yes: bool)
    requires Steady(s) && InOrder(s0, s) && i < |s.threads| && IsProducer(s.threads[i])
    requires s.threads[i].Submitting? ==> yes
    ensures Steady(ProducerStep(s, i, yes))
  {
    hide AllOrdinary, Alone, Held, InOrder, EnterStep, Submit;
    HeldHere(s, i);
    var t := ProducerStep(s, i, yes);
    match s.threads[i]
    case Enter(e) => EnterSteady(s0, s, i, e);
    case Parked(e) => MovedSteady(s, t, i, Pushed);
    case Pushed => MovedSteady(s, t, i, t.threads[i]);
    case Submitting => SubmittingSteady(s, i);
  }

  lemma DrainSteady(s: State, i: nat)
    requires Steady(s) && i < |s.threads| && IsDrain(s.threads[i])
    ensures Steady(DrainStep(s, i))
  {
    hide AllOrdinary, Alone, Held;
    HeldHere(s, i);
    var t := DrainStep(s, i);
    MovedSteady(s, t, i, t.threads[i]);
  }

  // ---- One step keeps the order ---------------------------------------------

  lemma MovedInOrder(s0: State, s: State, t: State, i: nat, pc: Pc)
    requires InOrder(s0, s) && i < |s.threads| && Batch(pc) == Batch(s.threads[i]) == []
    requires t.threads == s.threads[i := pc] && t.queue == s.queue && t.written == s.written && t.history == s.history
    ensures InOrder(s0, t)
  {
    hide Batch, InFlight, Survivors;
    SameInFlight(s.threads, i, pc);
  }

  lemma PushInOrder(s0: State, s: State, i: nat, e: Event)
    requires InOrder(s0, s) && i < |s.threads| && Batch(s.threads[i]) == []
    requires |s.history.pushed| !in s.history.evicted
    ensures InOrder(s0, Push(s, i, e))
  {
    hide InFlight, Survivors;
    SameInFlight(s.threads, i, Pushed);
    PushOne(s.history.pushed, s.history.evicted, |s0.history.pushed|, e);
    var x := Item(|s.history.pushed|, e);
    var front := s.written[|s0.written|..] + InFlight(s.threads);
    assert front + s.queue + [x] == front + (s.queue + [x]);
  }

  lemma EvictInOrder(s0: State, s: State)
    requires InOrder(s0, s) && Full(s)
    ensures InOrder(s0, Evict(s))
  {
    hide InFlight, Survivors;
    var front := s.written[|s0.written|..] + InFlight(s.threads);
    assert s.queue == [s.queue[0]] + s.queue[1..];
    assert front + s.queue == front + [s.queue[0]] + s.queue[1..];
    EvictOne(s.history.pushed, s.history.evicted, |s0.history.pushed|, front, s.queue[0], s.queue[1..]);
  }

  lemma EnterInOrder(s0: State, s: State, i: nat, e: Event)
    requires Steady(s) && InOrder(s0, s) && i < |s.threads| && s.threads[i] == Enter(e)
    ensures InOrder(s0, EnterStep(s, i, e))
  {
    hide InOrder, Push, AllOrdinary, Alone, Held;
    var t := EnterStep(s, i, e);
    if !Full(s) {
      PushInOrder(s0, s, i, e);
    } else {
      match s.policy
      case Block => MovedInOrder(s0, s, t, i, Parked(e));
      case Discard => DiscardInOrder(s0, s, t, i);
      case OverrunOldest =>
        HeadIsNumbered(s0, s);
        EvictInOrder(s0, s);
        PushInOrder(s0, Evict(s), i, e);
    }
  }

  lemma DiscardInOrder(s0: State, s: State, t: State, i: nat)
    requires InOrder(s0, s) && i < |s.threads| && Batch(s.threads[i]) == []
    requires t.threads == s.threads[i := Done] && t.queue == s.queue && t.written == s.written
    requires t.history.pushed == s.history.pushed && t.history.evicted == s.history.evicted
    ensures InOrder(s0, t)
  {
    hide InFlight, Survivors;
    SameInFlight(s.threads, i, Done);
  }

  lemma SubmittingInOrder(s0: State, s: State, i: nat)
    requires Steady(s) && InOrder(s0, s) && i < |s.threads| && s.threads[i].Submitting?
    ensures InOrder(s0, Submit(s, i, Done, Failed, true))
  {
    hide InFlight, Survivors, AllOrdinary, Alone, Held;
    SameInFlight(s.threads, i, Done);
    AppendInFlight(s.threads[i := Done], Queued(s.pool.owns));
  }

  lemma ProducerInOrder(s0: State, s: State, i: nat, yes: bool)
    requires Steady(s) && InOrder(s0, s) && i < |s.threads| && IsProducer(s.threads[i])
    requires s.threads[i].Submitting? ==> yes
    ensures InOrder(s0, ProducerStep(s, i, yes))
  {
    hide AllOrdinary, Alone, Held, InOrder, EnterStep, Submit, Push;
    HeldHere(s, i);
    var t := ProducerStep(s, i, yes);
    match s.threads[i]
    case Enter(e) => EnterInOrder(s0, s, i, e);
    case Parked(e) => PushInOrder(s0, s, i, e);
    case Pushed => MovedInOrder(s0, s, t, i, t.threads[i]);
    case Submitting => SubmittingInOrder(s0, s, i);
  }

  /** The only drain takes the queue while nothing is in flight. */
  lemma TakeInOrder(s0: State, s: State, i: nat)
    requires Steady(s) && InOrder(s0, s) && i < |s.threads| && s.threads[i].DrainTake?
    ensures InOrder(s0, DrainStep(s, i))
  {
    hide InFlight, Survivors;
    OneInFlight(s.threads, i);
    OneInFlight(DrainStep(s, i).threads, i);
    var w := s.written[|s0.written|..];
    assert w + [] + s.queue == w + s.queue + [];
  }

  /** It writes its batch before anything newer is in flight. */
  lemma WriteInOrder(s0: State, s: State, i: nat)
    requires Steady(s) && InOrder(s0, s) && i < |s.threads| && s.threads[i].DrainWrite?
    ensures InOrder(s0, DrainStep(s, i))
  {
    hide InFlight, Survivors;
    OneInFlight(s.threads, i);
    OneInFlight(DrainStep(s, i).threads, i);
    var batch := s.threads[i].batch;
    assert (s.written + batch)[|s0.written|..] == s.written[|s0.written|..] + batch;
    assert s.written[|s0.written|..] + batch + [] == s.written[|s0.written|..] + batch;
  }

  lemma DrainInOrder(s0: State, s: State, i: nat)
    requires Steady(s) && InOrder(s0, s) && i < |s.threads| && IsDrain(s.threads[i])
    ensures InOrder(s0, DrainStep(s, i))
  {
    hide InOrder, Steady;
    var t := DrainStep(s, i);
    match s.threads[i]
    case DrainTake => TakeInOrder(s0, s, i);
    case DrainWrite(_) => WriteInOrder(s0, s, i);
    case Queued(_) => MovedInOrder(s0, s, t, i, DrainTake);
    case DrainAck => MovedInOrder(s0, s, t, i, DrainCheck);
    case DrainCheck => MovedInOrder(s0, s, t, i, t.threads[i]);
  }

  lemma LogKeeps(s0: State, s: State, e: Event)
    requires Steady(s) && InOrder(s0, s)
    ensures Steady(Step(s, Log(e))) && InOrder(s0, Step(s, Log(e)))
  {
    hide InFlight, Survivors, AllOrdinary, Alone, Held;
    Appended(s.threads, Enter(e));
    AppendInFlight(s.threads, Enter(e));
  }

  lemma StepKeeps(s0: State, s: State, a: Action)
    requires Steady(s) && InOrder(s0, s) && Can(s, a) && Accepting(s, a)
    ensures Steady(Step(s, a)) && InOrder(s0, Step(s, a))
  {
    hide Steady, InOrder, ProducerStep, DrainStep;
    match a
    case Log(e) => LogKeeps(s0, s, e);
    case Thread(i, yes) =>
      HeldHere(s, i);
      if IsProducer(s.threads[i]) {
        ProducerSteady(s0, s, i, yes);
        ProducerInOrder(s0, s, i, yes);
      } else {
        DrainSteady(s, i);
        DrainInOrder(s0, s, i);
      }
  }

  lemma {:induction false} RunKeeps(s0: State, s: State, acts: seq<Action>)
    requires Steady(s) && InOrder(s0, s) && AcceptingRun(s, acts)
    ensures IsRun(s, acts) && Steady(After(s, acts)) && InOrder(s0, After(s, acts))
    decreases |acts|
  {
    hide Steady, InOrder, Step, Can, Accepting;
    if acts != [] {
      StepKeeps(s0, s, acts[0]);
      RunKeeps(s0, Step(s, acts[0]), acts[1..]);
    }
  }

  // ---- Results ---------------------------------------------------------------

  /** enable_async ends in a quiet logger, whatever happened before, once earlier calls have returned. */
  lemma EnableIsQuiet(s: State, c: Config)
    requires Phases(s) && s.control == ResetQueue(c) && (forall i | 0 <= i < |s.threads| :: s.threads[i].Done?)
    requires forall n | n in s.history.evicted :: n < |s.history.pushed|
    ensures
      var acts := [Controller, Controller, Controller, Controller];
      IsRun(s, acts) && Quiet(After(s, acts))
  {
    var s1 := Step(s, Controller);
    var s2 := Step(s1, Controller);
    var s3 := Step(s2, Controller);
    var s4 := Step(s3, Controller);
    var c1 := [Controller];
    assert c1[1..] == [];
    assert [Controller, Controller][1..] == c1;
    assert [Controller, Controller, Controller][1..] == [Controller, Controller];
    assert [Controller, Controller, Controller, Controller][1..] == [Controller, Controller, Controller];
    assert IsRun(s3, c1) && After(s3, c1) == s4;
    assert IsRun(s2, [Controller, Controller]) && After(s2, [Controller, Controller]) == s4;
    assert IsRun(s1, [Controller, Controller, Controller]) && After(s1, [Controller, Controller, Controller]) == s4;
  }

  lemma QuietIsSteady(s: State)
    requires Quiet(s)
    ensures Steady(s) && InOrder(s, s)
  {
    hide Steady, InOrder;
    DoneIsSteady(s);
    DoneIsInOrder(s);
  }

  lemma DoneIsSteady(s: State)
    requires Quiet(s)
    ensures Steady(s)
  {
  }

  lemma DoneIsInOrder(s: State)
    requires Quiet(s)
    ensures InOrder(s, s)
  {
    NoneInFlight(s.threads);
    hide InFlight;
    assert Pipeline(s, s) == [];
  }

  lemma SteadyIsAlone(s: State)
    requires Steady(s)
    ensures Alone(s.threads) && (s.scheduled <==> Held(s.threads))
  {
  }

  /**
    From a quiet logger, however producers and drains interleave, at most one thread holds the
    drain, and what was written, then what is in flight, then what is queued is exactly the
    sequence of pushed events without those that overrun_oldest evicted.
   */
  lemma SingleDrainFifo(s0: State, acts: seq<Action>)
    requires Quiet(s0) && AcceptingRun(s0, acts)
    ensures IsRun(s0, acts)
    ensures
      var s := After(s0, acts);
      && Alone(s.threads) && (s.scheduled <==> Held(s.threads))
      && s0.written <= s.written && |s0.history.pushed| <= |s.history.pushed|
      && s.written[|s0.written|..] + InFlight(s.threads) + s.queue ==
           Survivors(s.history.pushed, s.history.evicted, |s0.history.pushed|)
  {
    QuietIsSteady(s0);
    hide Step, Steady, InFlight, Survivors, IsRun, After, Quiet, AcceptingRun;
    RunKeeps(s0, s0, acts);
    SteadyIsAlone(After(s0, acts));
  }

  /** Events reach the sinks in the order of their pushes, each with the value that was pushed. */
  lemma WrittenInPushOrder(s0: State, acts: seq<Action>)
    requires Quiet(s0) && AcceptingRun(s0, acts)
    ensures IsRun(s0, acts)
    ensures
      var s := After(s0, acts);
      && |s0.written| <= |s.written|
      && (forall k | |s0.written| <= k < |s.written| ::
            |s0.history.pushed| <= s.written[k].n < |s.history.pushed| &&
              s.written[k].e == s.history.pushed[s.written[k].n])
      && (forall j, k | |s0.written| <= j < k < |s.written| :: s.written[j].n < s.written[k].n)
  {
    SingleDrainFifo(s0, acts);
    var s := After(s0, acts);
    var all := Survivors(s.history.pushed, s.history.evicted, |s0.history.pushed|);
    SurvivorsAreNumbered(s.history.pushed, s.history.evicted, |s0.history.pushed|);
    assert forall k | |s0.written| <= k < |s.written| ::
        s.written[k] == s.written[|s0.written|..][k - |s0.written|] == all[k - |s0.written|];
  }
}
