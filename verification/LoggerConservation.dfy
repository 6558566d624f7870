/**
  Conservation: in every interleaving, with flushes, shutdowns and restarts, every event that
  entered enqueue_async is written, held by some thread, queued or dropped by an overflow policy.
  Events are counted one value x at a time.
 */
module LoggerConservation {
  import opened AsyncLogger

  function Count(items: seq<Item>, x: Event): nat {
    if items == [] then 0 else (if items[0].e == x then 1 else 0) + Count(items[1..], x)
  }

  function One(e: Event, x: Event): nat { if e == x then 1 else 0 }

  /** How often x is among the events a thread still has in its hands. */
  function Load(pc: Pc, x: Event): nat {
    match pc
    case Enter(e) => One(e, x)
    case Parked(e) => One(e, x)
    case Direct(e) => One(e, x)
    case DrainWrite(batch) => Count(batch, x)
    case FlushWrite(batch) => Count(batch, x)
    case _ => 0
  }

  function LoadAll(threads: seq<Pc>, x: Event): nat {
    if threads == [] then 0 else Load(threads[0], x) + LoadAll(threads[1..], x)
  }

  function ControlLoad(c: Control, x: Event): nat {
    if c.FinalWrite? then Count(c.batch, x) else 0
  }

  function Held(s: State, x: Event): nat {
    Count(s.written, x) + Count(s.queue, x) + LoadAll(s.threads, x) + ControlLoad(s.control, x) + s.history.dropped[x]
  }

  predicate Conserved(s: State, x: Event) {
    s.history.entered[x] == Held(s, x)
  }

  /** Only a policy other than block ever drops. */
  predicate Lossless(s: State) {
    !s.history.lossy ==> s.policy == Block && s.history.dropped == multiset{}
  }

  lemma {:induction false} CountConcat(a: seq<Item>, b: seq<Item>, x: Event)
    ensures Count(a + b, x) == Count(a, x) + Count(b, x)
  {
    if a == [] {
      assert a + b == b;
    } else {
      assert (a + b)[1..] == a[1..] + b;
      CountConcat(a[1..], b, x);
    }
  }

  lemma {:induction false} LoadUpdate(threads: seq<Pc>, i: nat, pc: Pc, x: Event)
    requires i < |threads|
    ensures LoadAll(threads[i := pc], x) + Load(threads[i], x) == LoadAll(threads, x) + Load(pc, x)
  {
    hide Load;
    if i > 0 {
      assert threads[i := pc][1..] == threads[1..][i - 1 := pc];
      LoadUpdate(threads[1..], i - 1, pc, x);
    } else {
      assert threads[i := pc][1..] == threads[1..];
    }
  }

  lemma {:induction false} LoadAppend(threads: seq<Pc>, pc: Pc, x: Event)
    ensures LoadAll(threads + [pc], x) == LoadAll(threads, x) + Load(pc, x)
  {
    hide Load;
    if threads == [] {
      assert threads + [pc] == [pc];
    } else {
      assert (threads + [pc])[1..] == threads[1..] + [pc];
      LoadAppend(threads[1..], pc, x);
    }
  }

  lemma {:induction false} LoadSame(a: seq<Pc>, b: seq<Pc>, x: Event)
    requires |a| == |b| && forall i | 0 <= i < |a| :: Load(a[i], x) == Load(b[i], x)
    ensures LoadAll(a, x) == LoadAll(b, x)
  {
    hide Load;
    if a != [] {
      LoadSame(a[1..], b[1..], x);
    }
  }

  // ---- One step ------------------------------------------------------------

  lemma GoConserves(s: State, i: nat, pc: Pc, x: Event)
    requires Conserved(s, x) && i < |s.threads| && Load(pc, x) == Load(s.threads[i], x)
    ensures Conserved(Go(s, i, pc), x)
  {
    hide Load, LoadAll, Count;
    LoadUpdate(s.threads, i, pc, x);
  }

  lemma PushConserves(s: State, i: nat, e: Event, x: Event)
    requires Conserved(s, x) && i < |s.threads| && Load(s.threads[i], x) == One(e, x)
    ensures Conserved(Push(s, i, e), x)
  {
    hide LoadAll;
    LoadUpdate(s.threads, i, Pushed, x);
    var item := Item(|s.history.pushed|, e);
    CountConcat(s.queue, [item], x);
    assert [item][1..] == [];
  }

  lemma EvictConserves(s: State, x: Event)
    requires Conserved(s, x) && Full(s)
    ensures Conserved(Evict(s), x)
  {
    hide Load, LoadAll;
    assert Count(s.queue, x) == One(s.queue[0].e, x) + Count(s.queue[1..], x);
  }

  lemma DiscardConserves(s: State, i: nat, e: Event, x: Event)
    requires Conserved(s, x) && i < |s.threads| && s.threads[i] == Enter(e)
    ensures Conserved(Go(s, i, Done).(history := s.history.(dropped := s.history.dropped + multiset{e})), x)
  {
    hide LoadAll, Count;
    LoadUpdate(s.threads, i, Done, x);
  }

  lemma EnterConserves(s: State, i: nat, e: Event, x: Event)
    requires Conserved(s, x) && i < |s.threads| && s.threads[i] == Enter(e)
    ensures Conserved(EnterStep(s, i, e), x)
  {
    hide Conserved, Push, Go;
    if !s.async {
      GoConserves(s, i, Direct(e), x);
    } else if !Full(s) {
      PushConserves(s, i, e, x);
    } else {
      match s.policy
      case Block => GoConserves(s, i, Parked(e), x);
      case Discard => DiscardConserves(s, i, e, x);
      case OverrunOldest =>
        EvictConserves(s, x);
        PushConserves(Evict(s), i, e, x);
    }
  }

  lemma WriteConserves(s: State, i: nat, batch: seq<Item>, next: Pc, x: Event)
    requires Conserved(s, x) && i < |s.threads|
    requires Load(s.threads[i], x) == Count(batch, x) && Load(next, x) == 0
    ensures Conserved(Write(s, i, batch, next), x)
  {
    hide Load, LoadAll, Count;
    LoadUpdate(s.threads, i, next, x);
    CountConcat(s.written, batch, x);
  }

  lemma SubmitConserves(s: State, i: nat, accepted: Pc, refused: Pc, yes: bool, x: Event)
    requires Conserved(s, x) && i < |s.threads|
    requires Load(s.threads[i], x) == Load(accepted, x) == Load(refused, x) == 0
    ensures Conserved(Submit(s, i, accepted, refused, yes), x)
  {
    hide LoadAll, Count;
    LoadUpdate(s.threads, i, accepted, x);
    LoadUpdate(s.threads, i, refused, x);
    LoadAppend(s.threads[i := accepted], Queued(s.pool.owns), x);
  }

  lemma TakeConserves(s: State, i: nat, pc: Pc, x: Event)
    requires Conserved(s, x) && i < |s.threads| && Load(s.threads[i], x) == 0 && Load(pc, x) == Count(s.queue, x)
    ensures Conserved(Go(s, i, pc).(queue := []), x)
  {
    hide Load, LoadAll;
    LoadUpdate(s.threads, i, pc, x);
  }

  lemma ProducerConserves(s: State, i: nat, yes: bool, x: Event)
    requires Conserved(s, x) && i < |s.threads| && IsProducer(s.threads[i])
    ensures Conserved(ProducerStep(s, i, yes), x)
  {
    hide Held, EnterStep, Push, Write, Submit;
    match s.threads[i]
    case Enter(e) => EnterConserves(s, i, e, x);
    case Parked(e) =>
      GoConserves(s, i, Direct(e), x);
      PushConserves(s, i, e, x);
    case Direct(e) =>
      assert [Item(-1, e)][1..] == [];
      WriteConserves(s, i, [Item(-1, e)], Done, x);
    case Pushed =>
      GoConserves(s, i, Done, x);
      GoConserves(s.(scheduled := true), i, Submitting, x) by { UnseenField(s, s.(scheduled := true), x); }
    case Submitting => SubmitConserves(s, i, Done, Failed, yes, x);
    case Failed =>
      GoConserves(s.(scheduled := false), i, DrainTake, x) by { UnseenField(s, s.(scheduled := false), x); }
  }

  /** The flags do not matter. */
  lemma UnseenField(s: State, t: State, x: Event)
    requires Conserved(s, x)
    requires t.queue == s.queue && t.written == s.written && t.threads == s.threads
    requires t.history == s.history && t.control == s.control
    ensures Conserved(t, x)
  {
  }

  lemma DrainConserves(s: State, i: nat, x: Event)
    requires Conserved(s, x) && i < |s.threads| && IsDrain(s.threads[i])
    ensures Conserved(DrainStep(s, i), x)
  {
    hide Held, Write;
    match s.threads[i]
    case Queued(_) => GoConserves(s, i, DrainTake, x);
    case DrainTake => TakeConserves(s, i, DrainWrite(s.queue), x);
    case DrainWrite(batch) => WriteConserves(s, i, batch, DrainAck, x);
    case DrainAck =>
      GoConserves(s, i, DrainCheck, x);
      UnseenField(Go(s, i, DrainCheck), DrainStep(s, i), x);
    case DrainCheck =>
      GoConserves(s, i, DrainTake, x);
      GoConserves(s, i, Done, x);
      UnseenField(Go(s, i, Done), Go(s, i, Done).(scheduled := false), x);
  }

  lemma ClaimConserves(s: State, i: nat, yes: bool, x: Event)
    requires Conserved(s, x) && i < |s.threads| && IsClaim(s.threads[i])
    ensures Conserved(ClaimStep(s, i, yes), x)
  {
    hide Held, Submit;
    match s.threads[i]
    case FlushClaim =>
      GoConserves(s, i, FlushLoop, x);
      GoConserves(s, i, FlushSubmit, x);
      UnseenField(Go(s, i, FlushSubmit), Go(s, i, FlushSubmit).(scheduled := true), x);
    case FlushSubmit => SubmitConserves(s, i, FlushLoop, FlushFailed, yes, x);
    case FlushFailed =>
      GoConserves(s, i, FlushLoop, x);
      UnseenField(Go(s, i, FlushLoop), ClaimStep(s, i, yes), x);
  }

  lemma FlushConserves(s: State, i: nat, yes: bool, x: Event)
    requires Conserved(s, x) && i < |s.threads| && IsFlush(s.threads[i])
    ensures Conserved(FlushStep(s, i, yes), x)
  {
    hide Held, Write;
    match s.threads[i]
    case FlushStart =>
      GoConserves(s, i, FlushRequest, x);
      GoConserves(s, i, FlushTake, x);
    case FlushRequest =>
      GoConserves(s, i, FlushLoop, x);
      UnseenField(Go(s, i, FlushLoop), FlushStep(s, i, yes), x);
    case FlushLoop =>
      GoConserves(s, i, FlushClaim, x);
      GoConserves(s, i, FlushAck, x);
    case FlushAck =>
      GoConserves(s, i, FlushTake, x);
      UnseenField(Go(s, i, FlushTake), FlushStep(s, i, yes), x);
    case FlushTake => TakeConserves(s, i, FlushWrite(s.queue), x);
    case FlushWrite(batch) => WriteConserves(s, i, batch, Done, x);
  }

  lemma JoinConserves(s: State, x: Event)
    requires Conserved(s, x) && Can(s, Controller) && s.control.Join?
    ensures Conserved(ControlStep(s), x)
  {
    hide LoadAll, Count;
    LoadSame(Dropped(s.threads), s.threads, x);
  }

  lemma ControlConserves(s: State, x: Event)
    requires Conserved(s, x) && Phases(s) && Can(s, Controller)
    ensures Conserved(ControlStep(s), x)
  {
    hide Load, LoadAll;
    match s.control
    case Join(_) => JoinConserves(s, x);
    case FinalWrite(_, batch) => CountConcat(s.written, batch, x);
    case _ =>
  }

  lemma StepConserves(s: State, a: Action, x: Event)
    requires Conserved(s, x) && Phases(s) && Can(s, a)
    ensures Conserved(Step(s, a), x)
  {
    hide ProducerStep, DrainStep, ClaimStep, FlushStep, ControlStep, Phases, LoadAll, Count;
    match a
    case Log(e) => LoadAppend(s.threads, Enter(e), x);
    case Flush => LoadAppend(s.threads, FlushStart, x);
    case Thread(i, yes) =>
      if IsProducer(s.threads[i]) {
        ProducerConserves(s, i, yes, x);
      } else if IsDrain(s.threads[i]) {
        DrainConserves(s, i, x);
      } else if IsClaim(s.threads[i]) {
        ClaimConserves(s, i, yes, x);
      } else {
        FlushConserves(s, i, yes, x);
      }
    case Controller => ControlConserves(s, x);
    case _ =>
  }

  lemma ProducerLossless(s: State, i: nat, yes: bool)
    requires Lossless(s) && i < |s.threads| && IsProducer(s.threads[i])
    ensures Lossless(ProducerStep(s, i, yes))
  {
  }

  lemma DrainLossless(s: State, i: nat)
    requires Lossless(s) && i < |s.threads| && IsDrain(s.threads[i])
    ensures Lossless(DrainStep(s, i))
  {
  }

  lemma ClaimLossless(s: State, i: nat, yes: bool)
    requires Lossless(s) && i < |s.threads| && IsClaim(s.threads[i])
    ensures Lossless(ClaimStep(s, i, yes))
  {
  }

  lemma FlushLossless(s: State, i: nat, yes: bool)
    requires Lossless(s) && i < |s.threads| && IsFlush(s.threads[i])
    ensures Lossless(FlushStep(s, i, yes))
  {
  }

  lemma ThreadLossless(s: State, i: nat, yes: bool)
    requires Lossless(s) && i < |s.threads|
    ensures Lossless(ThreadStep(s, i, yes))
  {
    hide ProducerStep, DrainStep, ClaimStep, FlushStep, Lossless;
    var pc := s.threads[i];
    if IsProducer(pc) {
      ProducerLossless(s, i, yes);
    } else if IsDrain(pc) {
      DrainLossless(s, i);
    } else if IsClaim(pc) {
      ClaimLossless(s, i, yes);
    } else if IsFlush(pc) {
      FlushLossless(s, i, yes);
    }
  }

  lemma ControlLossless(s: State)
    requires Lossless(s)
    ensures Lossless(ControlStep(s))
  {
  }

  lemma StepLossless(s: State, a: Action)
    requires Lossless(s) && Can(s, a)
    ensures Lossless(Step(s, a))
  {
    hide ThreadStep, ControlStep;
    match a
    case Thread(i, yes) => ThreadLossless(s, i, yes);
    case Controller => ControlLossless(s);
    case _ =>
  }

  // ---- All runs ------------------------------------------------------------

  lemma {:induction false} RunConserves(s: State, acts: seq<Action>, x: Event)
    requires Conserved(s, x) && Phases(s) && Lossless(s) && IsRun(s, acts)
    ensures Conserved(After(s, acts), x) && Phases(After(s, acts)) && Lossless(After(s, acts))
    decreases |acts|
  {
    hide Step, Conserved, Phases, Lossless, Can;
    if acts != [] {
      StepConserves(s, acts[0], x);
      PhasesKept(s, acts[0]);
      StepLossless(s, acts[0]);
      RunConserves(Step(s, acts[0]), acts[1..], x);
    }
  }

  /**
    Every run of the logger accounts for every event and never overfills the queue; as long as
    only the blocking policy was ever configured, nothing at all is dropped, not even the events
    of producers that were parked on a full queue when the logger shut down.
   */
  lemma EveryRunConserves(acts: seq<Action>, x: Event)
    requires IsRun(INITIAL, acts)
    ensures
      var s := After(INITIAL, acts);
      && s.history.entered[x] ==
           Count(s.written, x) + Count(s.queue, x) + LoadAll(s.threads, x) + ControlLoad(s.control, x) +
             s.history.dropped[x]
      && |s.queue| <= s.capacity
      && (!s.history.lossy ==> s.history.dropped == multiset{})
  {
    hide Step;
    RunConserves(INITIAL, acts, x);
  }

  predicate AllReturned(s: State) {
    (forall i | 0 <= i < |s.threads| :: s.threads[i].Done?) && s.control == Idle
  }

  lemma {:induction false} DoneLoad(threads: seq<Pc>, x: Event)
    requires forall i | 0 <= i < |threads| :: threads[i].Done?
    ensures LoadAll(threads, x) == 0
  {
    if threads != [] {
      DoneLoad(threads[1..], x);
    }
  }

  /** Once every call has returned and the logger is disabled, blocking has written every event exactly once. */
  lemma ShutdownWritesAll(acts: seq<Action>, x: Event)
    requires IsRun(INITIAL, acts)
    requires
      var s := After(INITIAL, acts);
      AllReturned(s) && !s.async && !s.history.lossy
    ensures
      var s := After(INITIAL, acts);
      Count(s.written, x) == s.history.entered[x]
  {
    hide Step;
    RunConserves(INITIAL, acts, x);
    DoneLoad(After(INITIAL, acts).threads, x);
  }
}
