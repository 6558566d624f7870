/**
  Delivery, whatever the scheduler does: calls and tasks that are under way come to rest after a
  bounded number of steps, and at rest no event waits.  The bound counts how often a flush goes
  on waiting, which its deadline limits.
 */
module LoggerDelivery {
  import opened Arithmetic
  import opened AsyncLogger
  import opened LoggerConservation
  import opened LoggerLiveness

  /** A flush wakes up, sees its request still pending and looks after the drain once more. */
  predicate Poke(s: State, a: Action) {
    a.Thread? && a.i < |s.threads| && s.threads[a.i].FlushLoop? && s.flushRequested && s.running && a.yes
  }

  function Pokes(s: State, acts: seq<Action>): nat
    requires IsRun(s, acts)
    decreases |acts|
  {
    if acts == [] then 0 else (if Poke(s, acts[0]) then 1 else 0) + Pokes(Step(s, acts[0]), acts[1..])
  }

  // ---- The measure ----------------------------------------------------------

  function Sum(threads: seq<Pc>, f: Pc -> nat): nat {
    if threads == [] then 0 else f(threads[0]) + Sum(threads[1..], f)
  }

  lemma {:induction false} SumUpdate(threads: seq<Pc>, i: nat, pc: Pc, f: Pc -> nat)
    requires i < |threads|
    ensures Sum(threads[i := pc], f) + f(threads[i]) == Sum(threads, f) + f(pc)
  {
    if i > 0 {
      assert threads[i := pc][1..] == threads[1..][i - 1 := pc];
      SumUpdate(threads[1..], i - 1, pc, f);
    } else {
      assert threads[i := pc][1..] == threads[1..];
    }
  }

  lemma {:induction false} SumAppend(threads: seq<Pc>, pc: Pc, f: Pc -> nat)
    ensures Sum(threads + [pc], f) == Sum(threads, f) + f(pc)
  {
    if threads == [] {
      assert threads + [pc] == [pc];
    } else {
      assert (threads + [pc])[1..] == threads[1..] + [pc];
      SumAppend(threads[1..], pc, f);
    }
  }

  lemma {:induction false} SumBelow(a: seq<Pc>, b: seq<Pc>, f: Pc -> nat)
    requires |a| == |b| && forall i | 0 <= i < |a| :: f(a[i]) <= f(b[i])
    ensures Sum(a, f) <= Sum(b, f)
  {
    if a != [] {
      SumBelow(a[1..], b[1..], f);
    }
  }

  /** How far a thread is from its end or from being a drain, and what it can still set off on the way. */
  function Weight(pc: Pc): nat {
    match pc
    case Enter(_) => 6
    case Parked(_) => 5
    case Direct(_) => 1
    case Pushed => 3
    case Submitting => 2
    case Failed => 1
    case FlushStart => 7
    case FlushRequest => 6
    case FlushClaim => 7
    case FlushSubmit => 6
    case FlushFailed => 5
    case FlushLoop => 4
    case FlushAck => 3
    case FlushTake => 2
    case FlushWrite(_) => 1
    case _ => 0
  }

  /** Is, or may become, or may submit a drain. */
  function Promise(pc: Pc): nat {
    if Owner(pc) || pc.Pushed? || pc.FlushClaim? || pc.Enter? || pc.Parked? then 1 else 0
  }

  /** How far a drain is from taking the queue, else from acknowledging a request, else from its end. */
  function Lag(pc: Pc, waiting: bool, requested: bool): nat {
    match pc
    case Queued(_) => if waiting then 2 else if requested then 4 else 5
    case DrainTake => if waiting then 1 else if requested then 3 else 4
    case DrainWrite(_) => if waiting then 4 else if requested then 2 else 3
    case DrainAck => if waiting then 3 else if requested then 1 else 2
    case DrainCheck => if waiting then 2 else if requested then 4 else 1
    case _ => 0
  }

  function LagWith(waiting: bool, requested: bool): Pc -> nat {
    pc => Lag(pc, waiting, requested)
  }

  function Rank(c: Control): nat {
    match c
    case Idle => 0
    case SetAsync => 1
    case SetRunning => 2
    case StartPool(_) => 3
    case ResetQueue(_) => 4
    case FinalAck(_) => 5
    case FinalWrite(_, _) => 6
    case FinalTake(_) => 7
    case Join(_) => 8
    case ClearAsync(_) => 9
    case ClearRunning(_) => 10
  }

  function Flags(s: State): nat {
    (if s.queue != [] then 1 else 0) + (if s.flushRequested then 1 else 0)
  }

  /** Falls with every step that is not one of a drain, and with every flag a drain clears. */
  function Work(s: State, pokes: nat): nat {
    Sum(s.threads, Weight) + Rank(s.control) + Flags(s) + 4 * pokes
  }

  /** Drains there are and may still be. */
  function Drains(s: State, pokes: nat): nat {
    Sum(s.threads, Promise) + pokes
  }

  function Behind(s: State): nat {
    Sum(s.threads, LagWith(s.queue != [], s.flushRequested))
  }

  function Measure(s: State, pokes: nat): nat {
    Work(s, pokes) * (5 * Drains(s, pokes) + 1) + Behind(s)
  }

  lemma {:induction false} LagBelow(threads: seq<Pc>, waiting: bool, requested: bool)
    ensures Sum(threads, LagWith(waiting, requested)) <= 5 * Sum(threads, Promise)
  {
    if threads != [] {
      LagBelow(threads[1..], waiting, requested);
    }
  }

  /** Work first, then how far the drains are behind. */
  predicate Less(t: State, after: nat, s: State, pokes: nat) {
    && Drains(t, after) <= Drains(s, pokes)
    && (Work(t, after) < Work(s, pokes) || (Work(t, after) == Work(s, pokes) && Behind(t) < Behind(s)))
  }

  lemma LessMeasure(t: State, after: nat, s: State, pokes: nat)
    requires Less(t, after, s, pokes)
    ensures Measure(t, after) < Measure(s, pokes)
  {
    hide Work, Drains;
    LagBelow(t.threads, t.queue != [], t.flushRequested);
    assert Behind(t) <= 5 * Drains(t, after) by { BehindBelow(t, after); }
    Product(Work(t, after), Drains(t, after), Behind(t), Work(s, pokes), Drains(s, pokes), Behind(s));
  }

  lemma BehindBelow(t: State, after: nat)
    ensures Behind(t) <= 5 * Drains(t, after)
  {
    LagBelow(t.threads, t.queue != [], t.flushRequested);
  }

  lemma Product(w: nat, d: nat, b: nat, u: nat, e: nat, c: nat)
    requires d <= e && b <= 5 * d && (w < u || (w == u && b < c))
    ensures w * (5 * d + 1) + b < u * (5 * e + 1) + c
  {
    var x, y := 5 * d + 1, 5 * e + 1;
    Monotone(x, y, w);
    assert w * x == x * w && w * y == y * w;
    if w < u {
      Monotone(w + 1, u, y);
      assert (w + 1) * y == w * y + y;
    }
  }

  // ---- One step ------------------------------------------------------------

  /** A thread moves from one place to the next, and may leave a drain behind. */
  lemma Advanced(s: State, t: State, i: nat, pc: Pc, spawned: seq<Pc>, pokes: nat, after: nat)
    requires i < |s.threads| && t.control == s.control && after <= pokes
    requires |spawned| <= 1 && (forall k | 0 <= k < |spawned| :: spawned[k].Queued?)
    requires t.threads == s.threads[i := pc] + spawned
    ensures Work(t, after) + Weight(s.threads[i]) + Flags(s) + 4 * pokes ==
      Work(s, pokes) + Weight(pc) + Flags(t) + 4 * after
    ensures Drains(t, after) + Promise(s.threads[i]) + pokes == Drains(s, pokes) + Promise(pc) + |spawned| + after
    ensures (t.queue != []) == (s.queue != []) && t.flushRequested == s.flushRequested && spawned == [] ==>
      Behind(t) + Lag(s.threads[i], s.queue != [], s.flushRequested) ==
        Behind(s) + Lag(pc, s.queue != [], s.flushRequested)
  {
    hide Sum, Weight, Promise, Lag;
    SumUpdate(s.threads, i, pc, Weight);
    SumUpdate(s.threads, i, pc, Promise);
    SumUpdate(s.threads, i, pc, LagWith(s.queue != [], s.flushRequested));
    if spawned == [] {
      assert t.threads == s.threads[i := pc];
    } else {
      var q := spawned[0];
      assert spawned == [q];
      SumAppend(s.threads[i := pc], q, Weight);
      SumAppend(s.threads[i := pc], q, Promise);
      assert Weight(q) == 0 && Promise(q) == 1 by { QueuedWeighs(q); }
    }
  }

  lemma QueuedWeighs(q: Pc)
    requires q.Queued?
    ensures Weight(q) == 0 && Promise(q) == 1
  {
  }

  lemma SubmitShrinks(s: State, i: nat, accepted: Pc, refused: Pc, yes: bool, pokes: nat)
    requires i < |s.threads| && Promise(s.threads[i]) == 1 && Promise(accepted) == 0
    requires Weight(accepted) < Weight(s.threads[i]) && Weight(refused) < Weight(s.threads[i])
    ensures Less(Submit(s, i, accepted, refused, yes), pokes, s, pokes)
  {
    hide Weight, Work, Drains, Behind, Sum, Promise;
    var t := Submit(s, i, accepted, refused, yes);
    assert Promise(refused) <= 1 by { PromiseAtMostOne(refused); }
    if yes && s.pool.live {
      Advanced(s, t, i, accepted, [Queued(s.pool.owns)], pokes, pokes);
    } else {
      var pc := if yes || !s.pool.tracked then accepted else refused;
      assert t.threads == s.threads[i := pc] + [];
      Advanced(s, t, i, pc, [], pokes, pokes);
    }
  }

  lemma PromiseAtMostOne(pc: Pc)
    ensures Promise(pc) <= 1
  {
  }

  /** A thread that moves on, and sets off less than it could have. */
  lemma Moves(s: State, t: State, i: nat, pc: Pc, pokes: nat, after: nat)
    requires i < |s.threads| && t.control == s.control && after <= pokes && t.threads == s.threads[i := pc]
    requires Weight(pc) + Flags(t) + 4 * after < Weight(s.threads[i]) + Flags(s) + 4 * pokes
    requires Promise(pc) + after <= Promise(s.threads[i]) + pokes
    ensures Less(t, after, s, pokes)
  {
    hide Work, Drains, Behind, Weight, Promise, Flags;
    assert t.threads == s.threads[i := pc] + [];
    Advanced(s, t, i, pc, [], pokes, after);
  }

  /** A drain clears a flag or comes closer to it. */
  lemma Drained(s: State, t: State, i: nat, pc: Pc, pokes: nat)
    requires i < |s.threads| && t.control == s.control && t.threads == s.threads[i := pc]
    requires Weight(pc) == Weight(s.threads[i]) && Promise(pc) <= Promise(s.threads[i])
    requires
      || Flags(t) < Flags(s)
      || ((t.queue != []) == (s.queue != []) && t.flushRequested == s.flushRequested && Flags(t) == Flags(s) &&
          Lag(pc, s.queue != [], s.flushRequested) < Lag(s.threads[i], s.queue != [], s.flushRequested))
    ensures Less(t, pokes, s, pokes)
  {
    hide Work, Drains, Behind, Weight, Promise, Flags, Lag;
    assert t.threads == s.threads[i := pc] + [];
    Advanced(s, t, i, pc, [], pokes, pokes);
  }

  lemma EnterShrinks(s: State, i: nat, e: Event, pokes: nat)
    requires i < |s.threads| && s.threads[i] == Enter(e)
    ensures Less(EnterStep(s, i, e), pokes, s, pokes)
  {
    hide Less;
    var t := EnterStep(s, i, e);
    Moves(s, t, i, t.threads[i], pokes, pokes);
  }

  lemma ProducerShrinks(s: State, i: nat, yes: bool, pokes: nat)
    requires i < |s.threads| && IsProducer(s.threads[i])
    ensures Less(ProducerStep(s, i, yes), pokes, s, pokes)
  {
    hide Less, Submit, EnterStep;
    var pc := s.threads[i];
    if pc.Submitting? {
      SubmitShrinks(s, i, Done, Failed, yes, pokes);
    } else if pc.Enter? {
      EnterShrinks(s, i, pc.e, pokes);
    } else {
      var t := ProducerStep(s, i, yes);
      Moves(s, t, i, t.threads[i], pokes, pokes);
    }
  }

  lemma StartShrinks(s: State, i: nat, pokes: nat)
    requires i < |s.threads| && (s.threads[i].Queued? || s.threads[i].DrainTake? || s.threads[i].DrainWrite?)
    ensures Less(DrainStep(s, i), pokes, s, pokes)
  {
    hide Less;
    var t := DrainStep(s, i);
    Drained(s, t, i, t.threads[i], pokes);
  }

  lemma FinishShrinks(s: State, i: nat, pokes: nat)
    requires i < |s.threads| && (s.threads[i].DrainAck? || s.threads[i].DrainCheck?)
    ensures Less(DrainStep(s, i), pokes, s, pokes)
  {
    hide Less;
    var t := DrainStep(s, i);
    Drained(s, t, i, t.threads[i], pokes);
  }

  lemma DrainShrinks(s: State, i: nat, pokes: nat)
    requires i < |s.threads| && IsDrain(s.threads[i])
    ensures Less(DrainStep(s, i), pokes, s, pokes)
  {
    hide Less, DrainStep;
    if s.threads[i].DrainAck? || s.threads[i].DrainCheck? {
      FinishShrinks(s, i, pokes);
    } else {
      StartShrinks(s, i, pokes);
    }
  }

  lemma ClaimShrinks(s: State, i: nat, yes: bool, pokes: nat)
    requires i < |s.threads| && IsClaim(s.threads[i])
    ensures Less(ClaimStep(s, i, yes), pokes, s, pokes)
  {
    hide Less, Submit;
    if s.threads[i].FlushSubmit? {
      SubmitShrinks(s, i, FlushLoop, FlushFailed, yes, pokes);
    } else {
      var t := ClaimStep(s, i, yes);
      Moves(s, t, i, t.threads[i], pokes, pokes);
    }
  }

  lemma WaitShrinks(s: State, i: nat, yes: bool, pokes: nat)
    requires i < |s.threads| && s.threads[i].FlushLoop? && (Poke(s, Thread(i, yes)) ==> pokes > 0)
    ensures Less(FlushStep(s, i, yes), if Poke(s, Thread(i, yes)) then pokes - 1 else pokes, s, pokes)
  {
    hide Less;
    var t := FlushStep(s, i, yes);
    Moves(s, t, i, t.threads[i], pokes, if Poke(s, Thread(i, yes)) then pokes - 1 else pokes);
  }

  lemma RequestShrinks(s: State, i: nat, yes: bool, pokes: nat)
    requires i < |s.threads| && (s.threads[i].FlushStart? || s.threads[i].FlushRequest? || s.threads[i].FlushAck?)
    ensures Less(FlushStep(s, i, yes), pokes, s, pokes)
  {
    hide Less;
    var t := FlushStep(s, i, yes);
    Moves(s, t, i, t.threads[i], pokes, pokes);
  }

  lemma TakeShrinks(s: State, i: nat, yes: bool, pokes: nat)
    requires i < |s.threads| && (s.threads[i].FlushTake? || s.threads[i].FlushWrite?)
    ensures Less(FlushStep(s, i, yes), pokes, s, pokes)
  {
    hide Less;
    var t := FlushStep(s, i, yes);
    Moves(s, t, i, t.threads[i], pokes, pokes);
  }

  lemma FlushShrinks(s: State, i: nat, yes: bool, pokes: nat)
    requires i < |s.threads| && IsFlush(s.threads[i]) && (Poke(s, Thread(i, yes)) ==> pokes > 0)
    ensures Less(FlushStep(s, i, yes), if Poke(s, Thread(i, yes)) then pokes - 1 else pokes, s, pokes)
  {
    hide Less, FlushStep;
    var pc := s.threads[i];
    if pc.FlushLoop? {
      WaitShrinks(s, i, yes, pokes);
    } else if pc.FlushTake? || pc.FlushWrite? {
      TakeShrinks(s, i, yes, pokes);
    } else {
      RequestShrinks(s, i, yes, pokes);
    }
  }

  lemma DroppedShrinks(threads: seq<Pc>)
    ensures Sum(Dropped(threads), Weight) <= Sum(threads, Weight) &&
      Sum(Dropped(threads), Promise) <= Sum(threads, Promise)
  {
    hide Weight, Promise, Sum;
    forall k | 0 <= k < |threads|
      ensures Weight(Dropped(threads)[k]) <= Weight(threads[k]) && Promise(Dropped(threads)[k]) <= Promise(threads[k])
    {
      QueuedOrNot(threads[k]);
    }
    SumBelow(Dropped(threads), threads, Weight);
    SumBelow(Dropped(threads), threads, Promise);
  }

  lemma ControlMoves(s: State)
    requires s.control != Idle
    ensures ControlStep(s).threads == s.threads || ControlStep(s).threads == Dropped(s.threads)
    ensures Rank(ControlStep(s).control) < Rank(s.control)
  {
  }

  lemma ControlClears(s: State)
    ensures Flags(ControlStep(s)) <= Flags(s)
  {
    hide Dropped;
  }

  lemma ControlShrinks(s: State, pokes: nat)
    requires s.control != Idle
    ensures Less(ControlStep(s), pokes, s, pokes)
  {
    hide Weight, Promise, Sum, ControlStep, Rank, Flags, Behind;
    DroppedShrinks(s.threads);
    ControlMoves(s);
    ControlClears(s);
  }

  lemma QueuedOrNot(pc: Pc)
    ensures Weight(Done) == 0 && Promise(Done) == 0
  {
  }

  lemma StepShrinks(s: State, a: Action, pokes: nat)
    requires Can(s, a) && (a.Thread? || a.Controller?) && (Poke(s, a) ==> pokes > 0)
    ensures Measure(Step(s, a), if Poke(s, a) then pokes - 1 else pokes) < Measure(s, pokes)
  {
    hide Measure, Less, ProducerStep, DrainStep, ClaimStep, FlushStep, ControlStep;
    var after := if Poke(s, a) then pokes - 1 else pokes;
    match a {
      case Thread(i, yes) =>
        if IsProducer(s.threads[i]) {
          ProducerShrinks(s, i, yes, pokes);
        } else if IsDrain(s.threads[i]) {
          DrainShrinks(s, i, pokes);
        } else if IsClaim(s.threads[i]) {
          ClaimShrinks(s, i, yes, pokes);
        } else {
          FlushShrinks(s, i, yes, pokes);
        }
      case Controller => ControlShrinks(s, pokes);
    }
    LessMeasure(Step(s, a), after, s, pokes);
  }

  /** Nothing new is called: the number of steps is bounded, by a bound known at the start. */
  lemma {:induction false} RunIsBounded(s: State, acts: seq<Action>, pokes: nat)
    requires IsRun(s, acts) && UnderWay(acts) && Pokes(s, acts) <= pokes
    ensures |acts| <= Measure(s, pokes)
    decreases |acts|
  {
    hide Measure, Step, Can, Poke;
    if acts != [] {
      assert acts[0] in acts;
      StepShrinks(s, acts[0], pokes);
      RunIsBounded(Step(s, acts[0]), acts[1..], if Poke(s, acts[0]) then pokes - 1 else pokes);
    }
  }

  // ---- At rest -------------------------------------------------------------

  /** Nothing that is under way can move. */
  ghost predicate AtRest(s: State) {
    forall a: Action | a.Thread? || a.Controller? :: !Can(s, a)
  }

  lemma RestingThread(s: State, i: nat)
    requires AtRest(s) && i < |s.threads|
    ensures s.threads[i].Done? || (s.threads[i].Parked? && Full(s))
  {
    assert !Can(s, Thread(i, true));
  }

  /** At rest nobody waits, neither an event in the queue nor a producer for room in it. */
  lemma RestIsEmpty(s: State)
    requires Attended(s) && Phases(s) && AtRest(s)
    ensures s.queue == [] && AllReturned(s)
  {
    hide Can, Phases, Tracked;
    forall i | 0 <= i < |s.threads| ensures !Looks(s.threads[i]) && (s.threads[i].Done? || Full(s)) {
      RestingThread(s, i);
    }
    assert !Owned(s.threads) && !Watched(s.threads);
    RestingControl(s);
  }

  lemma RestingControl(s: State)
    requires Attended(s) && AtRest(s) && !Owned(s.threads)
    ensures s.control == Idle
  {
    hide Owned, Watched, Unclaimed;
    assert !Can(s, Controller);
  }

  lemma {:induction false} NoEnables(acts: seq<Action>)
    requires UnderWay(acts)
    ensures AllUse(acts, true)
  {
  }

  /**
    From any state the logger can get into, whatever the scheduler and the pool do from then on:
    the calls and tasks under way take no more than a bounded number of steps, and when none of
    them can move any more, every event that was ever logged is written, or was dropped by policy.
   */
  lemma EveryEventIsDelivered(acts: seq<Action>, more: seq<Action>, x: Event)
    requires SettledRun(INITIAL, acts) && AllUse(acts, true)
    ensures IsRun(INITIAL, acts)
    requires UnderWay(more) && IsRun(INITIAL, acts) && SettledRun(After(INITIAL, acts), more)
    ensures
      var s := After(INITIAL, acts);
      && IsRun(s, more) && |more| <= Measure(s, Pokes(s, more))
      && var t := After(s, more);
         AtRest(t) ==>
           && t.queue == [] && AllReturned(t)
           && t.history.entered[x] == Count(t.written, x) + t.history.dropped[x]
  {
    hide Measure, Attended, Phases, Conserved, Lossless, AtRest, Step, AllUse, UnderWay;
    Beginning(x);
    RunAttended(INITIAL, acts);
    var s := After(INITIAL, acts);
    NoEnables(more);
    RunAttended(s, more);
    RunIsBounded(s, more, Pokes(s, more));
    RunConserves(INITIAL, acts, x);
    RunConserves(s, more, x);
    var t := After(s, more);
    if AtRest(t) {
      RestIsEmpty(t);
      DoneLoad(t.threads, x);
      Delivered(t, x);
    }
  }

  lemma Beginning(x: Event)
    ensures Attended(INITIAL) && Phases(INITIAL) && Conserved(INITIAL, x) && Lossless(INITIAL)
  {
  }

  lemma Delivered(t: State, x: Event)
    requires Conserved(t, x) && t.queue == [] && AllReturned(t) && LoadAll(t.threads, x) == 0
    ensures t.history.entered[x] == Count(t.written, x) + t.history.dropped[x]
  {
  }
}
