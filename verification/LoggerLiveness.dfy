/**
  No stranded events: while the queue is not empty, some call or task that is already under way
  will still take it.
 */
module LoggerLiveness {
  import opened AsyncLogger

  /** No new call: only threads and the controller that are already under way move. */
  predicate UnderWay(acts: seq<Action>) {
    forall a | a in acts :: a.Thread? || a.Controller?
  }

  ghost predicate Empties(s: State, acts: seq<Action>) {
    UnderWay(acts) && IsRun(s, acts) && After(s, acts).queue == []
  }

  /** The events in the queue are not stranded. */
  ghost predicate Served(s: State) {
    exists acts :: Empties(s, acts)
  }

  // ---- Well-behaved configurations and restarts -----------------------------

  /** Between claiming a drain and the pool's answer, or about to claim one. */
  predicate Between(pc: Pc) {
    pc.Pushed? || pc.Submitting? || pc.Failed? || pc.FlushClaim? || pc.FlushSubmit? || pc.FlushFailed?
  }

  predicate Unclaimed(threads: seq<Pc>) {
    forall i | 0 <= i < |threads| :: !Between(threads[i])
  }

  /** The step does not replace a stopped pool while a call is still between push and submit. */
  predicate Settled(s: State, a: Action) {
    a.Controller? && s.control.ResetQueue? && !s.pool.live ==> Unclaimed(s.threads)
  }

  predicate SettledRun(s: State, acts: seq<Action>)
    decreases |acts|
  {
    acts == [] || (Can(s, acts[0]) && Settled(s, acts[0]) && SettledRun(Step(s, acts[0]), acts[1..]))
  }

  predicate Uses(a: Action, tracked: bool) {
    a.Enable? ==> a.config.tracked == tracked
  }

  predicate AllUse(acts: seq<Action>, tracked: bool) {
    forall a | a in acts :: Uses(a, tracked)
  }

  // ---- The invariant --------------------------------------------------------

  /** Holds the claim, or runs a drain: will get to the queue. */
  predicate Owner(pc: Pc) {
    pc.Submitting? || pc.Failed? || pc.FlushSubmit? || pc.FlushFailed? || IsDrain(pc)
  }

  /** Will take the queue, or claim a drain that does. */
  predicate Looks(pc: Pc) {
    Owner(pc) || pc.Pushed? || (IsFlush(pc) && !pc.FlushWrite?) || pc.FlushClaim?
  }

  predicate Owned(threads: seq<Pc>) {
    exists i :: 0 <= i < |threads| && Owner(threads[i])
  }

  predicate Watched(threads: seq<Pc>) {
    exists i :: 0 <= i < |threads| && Looks(threads[i])
  }

  predicate WillTake(c: Control) {
    c.ClearRunning? || c.ClearAsync? || c.Join? || c.FinalTake?
  }

  predicate Tracked(c: Control) {
    match c
    case ClearRunning(next) => next.Start? ==> next.config.tracked
    case ClearAsync(next) => next.Start? ==> next.config.tracked
    case Join(next) => next.Start? ==> next.config.tracked
    case FinalTake(next) => next.Start? ==> next.config.tracked
    case FinalWrite(next, _) => next.Start? ==> next.config.tracked
    case FinalAck(next) => next.Start? ==> next.config.tracked
    case ResetQueue(config) => config.tracked
    case StartPool(config) => config.tracked
    case _ => true
  }

  /** The queue is never left alone, and under a live pool neither is the claim on the drain. */
  predicate Attended(s: State) {
    && s.pool.tracked && Tracked(s.control)
    && (s.pool.live && s.scheduled ==> Owned(s.threads))
    && (s.control.StartPool? && !s.pool.live ==> !s.scheduled && Unclaimed(s.threads))
    && (s.queue != [] ==> Watched(s.threads) || WillTake(s.control))
  }

  // ---- One step ------------------------------------------------------------

  lemma Appended(threads: seq<Pc>, pc: Pc)
    ensures Owned(threads) || Owner(pc) ==> Owned(threads + [pc])
    ensures Watched(threads) || Looks(pc) ==> Watched(threads + [pc])
    ensures Unclaimed(threads) && !Between(pc) ==> Unclaimed(threads + [pc])
  {
    hide Owner, Looks, Between;
    var after := threads + [pc];
    assert after[|threads|] == pc;
    if Owned(threads) {
      var k :| 0 <= k < |threads| && Owner(threads[k]);
      assert Owner(after[k]);
    }
    if Watched(threads) {
      var k :| 0 <= k < |threads| && Looks(threads[k]);
      assert Looks(after[k]);
    }
  }

  lemma Updated(threads: seq<Pc>, i: nat, pc: Pc)
    requires i < |threads|
    ensures Owner(pc) || (Owned(threads) && !Owner(threads[i])) ==> Owned(threads[i := pc])
    ensures Looks(pc) || (Watched(threads) && !Looks(threads[i])) ==> Watched(threads[i := pc])
    ensures Unclaimed(threads) && !Between(pc) ==> Unclaimed(threads[i := pc])
  {
    hide Owner, Looks, Between;
    var after := threads[i := pc];
    assert after[i] == pc;
    if Owned(threads) && !Owner(threads[i]) {
      var k :| 0 <= k < |threads| && Owner(threads[k]);
      assert Owner(after[k]);
    }
    if Watched(threads) && !Looks(threads[i]) {
      var k :| 0 <= k < |threads| && Looks(threads[k]);
      assert Looks(after[k]);
    }
  }

  lemma OwnerWatches(threads: seq<Pc>)
    requires Owned(threads)
    ensures Watched(threads)
  {
    var k :| 0 <= k < |threads| && Owner(threads[k]);
    assert Looks(threads[k]);
  }

  /** A thread that moves from one place to the next leaves neither the claim nor the queue behind. */
  lemma Moved(s: State, t: State, i: nat, pc: Pc)
    requires Attended(s) && i < |s.threads|
    requires t.threads == s.threads[i := pc] && t.pool == s.pool && t.control == s.control
    requires s.pool.live && t.scheduled ==> Owner(pc) || (s.scheduled && !Owner(s.threads[i]))
    requires t.queue != [] ==>
      Looks(pc) || WillTake(s.control) || (s.queue != [] && !Looks(s.threads[i])) || (s.pool.live && t.scheduled)
    requires s.control.StartPool? && !s.pool.live ==> !t.scheduled && !Between(pc)
    ensures Attended(t)
  {
    hide Owned, Watched, Unclaimed, Tracked, Owner, Looks, Between, WillTake;
    Updated(s.threads, i, pc);
    if s.pool.live && t.scheduled {
      OwnerWatches(t.threads);
    }
  }

  /** A live pool that accepts queues the drain, which takes over the claim. */
  lemma Accepted(s: State, i: nat, accepted: Pc)
    requires Attended(s) && i < |s.threads| && s.pool.live
    ensures Attended(s.(threads := s.threads[i := accepted] + [Queued(s.pool.owns)]))
  {
    hide Owned, Watched, Unclaimed, Tracked, WillTake;
    Appended(s.threads[i := accepted], Queued(s.pool.owns));
  }

  /** A stopped pool accepts and forgets. */
  lemma Forgotten(s: State, i: nat, accepted: Pc)
    requires Attended(s) && i < |s.threads| && !s.pool.live && !s.control.StartPool?
    requires s.queue != [] ==> WillTake(s.control)
    ensures Attended(s.(threads := s.threads[i := accepted]))
  {
    hide Owned, Watched, Unclaimed, Tracked, WillTake;
  }

  /** The pool's answer: a live pool that tracks either queues the drain or the caller learns of the refusal. */
  lemma Answered(s: State, i: nat, accepted: Pc, refused: Pc, yes: bool)
    requires Attended(s) && Phases(s) && i < |s.threads| && Between(s.threads[i]) && Owner(refused) &&
      !Between(accepted)
    requires !s.pool.live && s.queue != [] ==> WillTake(s.control)
    ensures Attended(Submit(s, i, accepted, refused, yes))
  {
    Unstarted(s, i);
    assert s.pool.tracked && Looks(refused);
    hide Attended, Owner, Looks, Between, WillTake, Phases;
    if yes && s.pool.live {
      Accepted(s, i, accepted);
    } else if yes {
      Forgotten(s, i, accepted);
    } else {
      Moved(s, s.(threads := s.threads[i := refused]), i, refused);
    }
  }

  lemma ProducerAttended(s: State, i: nat, yes: bool)
    requires Attended(s) && Phases(s) && i < |s.threads| && IsProducer(s.threads[i])
    ensures Attended(ProducerStep(s, i, yes))
  {
    hide Attended, Owned, Watched, Unclaimed, Tracked, EnterStep, Submit;
    if s.control.StartPool? && !s.pool.live {
      Released(s);
    }
    match s.threads[i]
    case Enter(e) => EnterAttended(s, i, e);
    case Parked(e) =>
      Moved(s, ProducerStep(s, i, yes), i, ProducerStep(s, i, yes).threads[i]);
    case Direct(_) => Moved(s, ProducerStep(s, i, yes), i, Done);
    case Pushed =>
      Unstarted(s, i);
      Moved(s, ProducerStep(s, i, yes), i, ProducerStep(s, i, yes).threads[i]);
    case Submitting =>
      Unstarted(s, i);
      Answered(s, i, Done, Failed, yes);
    case Failed =>
      Unstarted(s, i);
      Moved(s, ProducerStep(s, i, yes), i, DrainTake);
  }

  /** Between a push and the pool's answer the pool cannot just have been replaced. */
  lemma Unstarted(s: State, i: nat)
    requires Attended(s) && i < |s.threads| && Between(s.threads[i])
    ensures s.control.StartPool? ==> s.pool.live
  {
  }

  /** ... and nobody holds the claim when a stopped pool is replaced. */
  lemma Released(s: State)
    requires Attended(s) && s.control.StartPool? && !s.pool.live
    ensures !s.scheduled
  {
  }

  lemma EnterAttended(s: State, i: nat, e: Event)
    requires Attended(s) && Phases(s) && i < |s.threads| && s.threads[i] == Enter(e)
    ensures Attended(EnterStep(s, i, e))
  {
    hide Attended, Owned, Watched, Unclaimed, Tracked;
    if s.control.StartPool? && !s.pool.live {
      Released(s);
    }
    Moved(s, EnterStep(s, i, e), i, EnterStep(s, i, e).threads[i]);
  }

  lemma DrainAttended(s: State, i: nat)
    requires Attended(s) && Phases(s) && i < |s.threads| && IsDrain(s.threads[i])
    ensures Attended(DrainStep(s, i))
  {
    hide Attended, Owned, Watched, Unclaimed, Tracked;
    if s.control.StartPool? && !s.pool.live {
      Released(s);
    }
    Moved(s, DrainStep(s, i), i, DrainStep(s, i).threads[i]);
  }

  lemma ClaimAttended(s: State, i: nat, yes: bool)
    requires Attended(s) && Phases(s) && i < |s.threads| && IsClaim(s.threads[i])
    ensures Attended(ClaimStep(s, i, yes))
  {
    hide Attended, Owned, Watched, Unclaimed, Tracked, Submit;
    Unstarted(s, i);
    match s.threads[i]
    case FlushSubmit => Answered(s, i, FlushLoop, FlushFailed, yes);
    case FlushClaim => Moved(s, ClaimStep(s, i, yes), i, ClaimStep(s, i, yes).threads[i]);
    case FlushFailed => Moved(s, ClaimStep(s, i, yes), i, FlushLoop);
  }

  lemma FlushAttended(s: State, i: nat, yes: bool)
    requires Attended(s) && Phases(s) && i < |s.threads| && IsFlush(s.threads[i])
    ensures Attended(FlushStep(s, i, yes))
  {
    hide Attended;
    var pc := s.threads[i];
    if pc.FlushLoop? || pc.FlushStart? || pc.FlushRequest? {
      WaitAttended(s, i, yes);
    } else {
      TakeAttended(s, i, yes);
    }
  }

  lemma WaitAttended(s: State, i: nat, yes: bool)
    requires Attended(s) && Phases(s) && i < |s.threads|
    requires s.threads[i].FlushLoop? || s.threads[i].FlushStart? || s.threads[i].FlushRequest?
    ensures Attended(FlushStep(s, i, yes))
  {
    hide Attended, Owned, Watched, Unclaimed, Tracked;
    if s.control.StartPool? && !s.pool.live {
      Released(s);
    }
    var t := FlushStep(s, i, yes);
    Moved(s, t, i, t.threads[i]);
  }

  lemma TakeAttended(s: State, i: nat, yes: bool)
    requires Attended(s) && Phases(s) && i < |s.threads|
    requires s.threads[i].FlushAck? || s.threads[i].FlushTake? || s.threads[i].FlushWrite?
    ensures Attended(FlushStep(s, i, yes))
  {
    hide Attended, Owned, Watched, Unclaimed, Tracked;
    if s.control.StartPool? && !s.pool.live {
      Released(s);
    }
    var t := FlushStep(s, i, yes);
    Moved(s, t, i, t.threads[i]);
  }

  /** Only tasks that have not started are dropped. */
  lemma ControlAttended(s: State)
    requires Attended(s) && Phases(s) && Can(s, Controller) && Settled(s, Controller)
    ensures Attended(ControlStep(s))
  {
    hide Owned, Watched, Unclaimed;
  }

  lemma StepAttended(s: State, a: Action)
    requires Attended(s) && Phases(s) && Can(s, a) && Settled(s, a) && Uses(a, true)
    ensures Attended(Step(s, a))
  {
    hide ProducerStep, DrainStep, ClaimStep, FlushStep, ControlStep, Phases, Owned, Watched, Unclaimed;
    match a
    case Log(e) => Appended(s.threads, Enter(e));
    case Flush => Appended(s.threads, FlushStart);
    case Thread(i, yes) =>
      if IsProducer(s.threads[i]) {
        ProducerAttended(s, i, yes);
      } else if IsDrain(s.threads[i]) {
        DrainAttended(s, i);
      } else if IsClaim(s.threads[i]) {
        ClaimAttended(s, i, yes);
      } else {
        FlushAttended(s, i, yes);
      }
    case Controller => ControlAttended(s);
    case _ =>
  }

  // ---- Whoever is there empties the queue ----------------------------------

  lemma ServedBefore(s: State, a: Action)
    requires Can(s, a) && (a.Thread? || a.Controller?) && Served(Step(s, a))
    ensures Served(s)
  {
    hide Step, Can;
    var acts :| Empties(Step(s, a), acts);
    var all := [a] + acts;
    assert all[1..] == acts;
    assert Empties(s, all);
  }

  lemma ServedNow(s: State)
    requires s.queue == []
    ensures Served(s)
  {
    assert Empties(s, []);
  }

  /** How many of its own steps a thread is away from the queue. */
  function Distance(pc: Pc): nat {
    match pc
    case DrainTake => 1
    case FlushTake => 1
    case Queued(_) => 2
    case Failed => 2
    case DrainCheck => 2
    case FlushAck => 2
    case DrainAck => 3
    case Submitting => 3
    case FlushLoop => 3
    case DrainWrite(_) => 4
    case FlushRequest => 4
    case FlushSubmit => 4
    case FlushFailed => 4
    case FlushStart => 5
    case FlushClaim => 5
    case _ => 6
  }

  /** The controller has stopped its pool and is about to take the queue. */
  lemma TakeServes(s: State)
    requires s.control.FinalTake?
    ensures Served(s)
  {
    ServedNow(Step(s, Controller));
    ServedBefore(s, Controller);
  }

  /** One step closer to the queue, with thread j to follow. */
  predicate Closer(s: State, i: nat, t: State, j: nat)
    requires i < |s.threads|
  {
    && j < |t.threads|
    && (t.queue == [] || (Looks(t.threads[j]) && Distance(t.threads[j]) < Distance(s.threads[i])))
  }

  lemma ProducerCloser(s: State, i: nat, j: nat)
    requires i < |s.threads| && IsProducer(s.threads[i]) && Looks(s.threads[i])
    requires s.pool.live && !(s.threads[i].Pushed? && s.scheduled)
    requires j == if s.threads[i].Submitting? then |s.threads| else i
    ensures Closer(s, i, ProducerStep(s, i, true), j)
  {
  }

  lemma DrainCloser(s: State, i: nat)
    requires i < |s.threads| && IsDrain(s.threads[i]) && s.queue != []
    ensures Closer(s, i, DrainStep(s, i), i)
  {
  }

  lemma ClaimCloser(s: State, i: nat)
    requires i < |s.threads| && IsClaim(s.threads[i])
    ensures Closer(s, i, ClaimStep(s, i, true), i)
  {
  }

  lemma FlushCloser(s: State, i: nat)
    requires i < |s.threads| && IsFlush(s.threads[i]) && Looks(s.threads[i])
    ensures Closer(s, i, FlushStep(s, i, false), i)
  {
  }

  lemma Approach(s: State, i: nat) returns (yes: bool, j: nat)
    requires i < |s.threads| && Looks(s.threads[i]) && s.queue != []
    requires s.pool.live && !(s.threads[i].Pushed? && s.scheduled)
    ensures Can(s, Thread(i, yes)) && Closer(s, i, Step(s, Thread(i, yes)), j)
  {
    hide Closer, ProducerStep, DrainStep, ClaimStep, FlushStep;
    var pc := s.threads[i];
    yes, j := true, i;
    if IsProducer(pc) {
      j := if pc.Submitting? then |s.threads| else i;
      ProducerCloser(s, i, j);
    } else if IsDrain(pc) {
      DrainCloser(s, i);
    } else if IsClaim(pc) {
      ClaimCloser(s, i);
    } else {
      yes := false;
      FlushCloser(s, i);
    }
  }

  lemma Unpooled(s: State)
    requires Phases(s) && s.queue != [] && !s.pool.live
    ensures s.control.FinalTake?
  {
  }

  // ---- When the queue is stranded ------------------------------------------

  /** About to put an event into the queue. */
  predicate CanPush(s: State, pc: Pc) {
    || (pc.Enter? && s.async && (!Full(s) || s.policy == OverrunOldest))
    || (pc.Parked? && s.async && s.running && !Full(s))
  }

  /** Will take the queue under a live pool: drains and flushes, and while the drain is unclaimed whoever pushes. */
  predicate Taker(s: State, pc: Pc) {
    || (Looks(pc) && !pc.Pushed?)
    || (!s.scheduled && (pc.Pushed? || CanPush(s, pc)))
  }

  /** The controller is going to take the queue, and need not wait for a claim on the drain to be released. */
  predicate Stops(s: State) {
    WillTake(s.control) && (s.control.FinalTake? || s.pool.owns || !s.scheduled)
  }

  /** Events wait, and nobody who is under way will look at them. */
  predicate Stuck(s: State) {
    s.queue != [] && !Stops(s) && forall i | 0 <= i < |s.threads| :: !Taker(s, s.threads[i])
  }

  /** How far a taker is from the queue. */
  function Away(pc: Pc): nat {
    if pc.Enter? || pc.Parked? then 7 else Distance(pc)
  }

  lemma Pushes(s: State, i: nat)
    requires i < |s.threads| && CanPush(s, s.threads[i]) && !s.scheduled && s.queue != []
    ensures
      var t := Step(s, Thread(i, true));
      && Can(s, Thread(i, true)) && |t.threads| == |s.threads| && Taker(t, t.threads[i]) && t.threads[i].Pushed?
  {
  }

  lemma {:induction false} TakerServes(s: State, i: nat)
    requires Phases(s) && i < |s.threads| && Taker(s, s.threads[i])
    ensures Served(s)
    decreases Away(s.threads[i])
  {
    hide Phases, Step, Served, CanPush;
    if s.queue == [] {
      ServedNow(s);
    } else if !s.pool.live {
      Unpooled(s);
      TakeServes(s);
    } else {
      var a, j := Thread(i, true), i;
      if Looks(s.threads[i]) {
        var yes;
        yes, j := Approach(s, i);
        a := Thread(i, yes);
      } else {
        assert s.threads[i].Enter? || s.threads[i].Parked? by { PushersAre(s, s.threads[i]); }
        Pushes(s, i);
      }
      PhasesKept(s, a);
      if Step(s, a).queue == [] {
        ServedNow(Step(s, a));
      } else {
        TakerServes(Step(s, a), j);
      }
      ServedBefore(s, a);
    }
  }

  lemma PushersAre(s: State, pc: Pc)
    requires CanPush(s, pc)
    ensures pc.Enter? || pc.Parked?
  {
  }

  lemma {:induction false} StopServes(s: State)
    requires Phases(s) && Stops(s)
    ensures Served(s)
    decreases
      if s.control.ClearRunning? then 3 else if s.control.ClearAsync? then 2 else if s.control.Join? then 1 else 0
  {
    hide Served, Phases;
    if s.control.FinalTake? {
      TakeServes(s);
    } else {
      PhasesKept(s, Controller);
      StopServes(Step(s, Controller));
      ServedBefore(s, Controller);
    }
  }

  /** A thread moves, and neither it nor any other becomes a taker by that. */
  lemma KeepsStuck(s: State, t: State, i: nat, pc: Pc)
    requires Stuck(s) && i < |s.threads| && t.threads == s.threads[i := pc] && t.queue != []
    requires t.control == s.control && t.pool == s.pool && t.scheduled == s.scheduled
    requires s.scheduled || (t.async == s.async && t.running == s.running && t.policy == s.policy && Full(t) == Full(s))
    requires !Taker(t, pc)
    ensures Stuck(t)
  {
    hide Looks, Full;
    forall k | 0 <= k < |t.threads| ensures !Taker(t, t.threads[k]) {
      assert k != i ==> !Taker(s, s.threads[k]);
    }
  }

  lemma StuckEnter(s: State, i: nat, e: Event)
    requires Stuck(s) && i < |s.threads| && s.threads[i] == Enter(e)
    ensures Stuck(EnterStep(s, i, e))
  {
    assert !Taker(s, s.threads[i]);
    hide Stuck, Looks, Stops;
    KeepsStuck(s, EnterStep(s, i, e), i, EnterStep(s, i, e).threads[i]);
  }

  lemma StuckThread(s: State, i: nat, yes: bool)
    requires Phases(s) && Stuck(s) && Can(s, Thread(i, yes))
    ensures Stuck(Step(s, Thread(i, yes)))
  {
    var pc := s.threads[i];
    assert !Taker(s, pc);
    assert pc.Enter? || pc.Parked? || pc.Direct? || pc.Pushed? || pc.FlushWrite? by { hide Stuck, Phases; }
    var t := Step(s, Thread(i, yes));
    hide Stuck, Phases, EnterStep;
    if pc.Enter? {
      StuckEnter(s, i, pc.e);
    } else {
      KeepsStuck(s, t, i, t.threads[i]);
    }
  }

  lemma StuckControl(s: State)
    requires Phases(s) && Stuck(s) && Can(s, Controller)
    ensures Stuck(Step(s, Controller))
  {
    var t := Step(s, Controller);
    assert s.control.ClearRunning? || s.control.ClearAsync?;
    assert t.threads == s.threads && t.scheduled;
    forall k | 0 <= k < |t.threads| ensures !Taker(t, t.threads[k]) {
      assert !Taker(s, s.threads[k]);
    }
  }

  lemma {:induction false} StuckStays(s: State, acts: seq<Action>)
    requires Phases(s) && Stuck(s) && UnderWay(acts) && IsRun(s, acts)
    ensures After(s, acts).queue != []
    decreases |acts|
  {
    hide Phases, Step, Can;
    if acts != [] {
      var a := acts[0];
      assert a in acts;
      assert Stuck(Step(s, a)) by {
        if a.Thread? {
          StuckThread(s, a.i, a.yes);
        } else {
          StuckControl(s);
        }
      }
      PhasesKept(s, a);
      assert UnderWay(acts[1..]);
      hide Stuck;
      StuckStays(Step(s, a), acts[1..]);
    }
  }

  /** Exactly when some continuation of what is under way takes the queue. */
  lemma ServedIff(s: State)
    requires Phases(s)
    ensures Served(s) <==> !Stuck(s)
  {
    hide Taker, Stops, Phases;
    if Stuck(s) {
      forall acts ensures !Empties(s, acts) {
        if UnderWay(acts) && IsRun(s, acts) {
          StuckStays(s, acts);
        }
      }
    } else if s.queue == [] {
      ServedNow(s);
    } else if Stops(s) {
      StopServes(s);
    } else {
      var i :| 0 <= i < |s.threads| && Taker(s, s.threads[i]);
      TakerServes(s, i);
    }
  }

  lemma {:induction false} RunPhases(s: State, acts: seq<Action>)
    requires Phases(s) && IsRun(s, acts)
    ensures Phases(After(s, acts))
    decreases |acts|
  {
    hide Phases, Step, Can;
    if acts != [] {
      PhasesKept(s, acts[0]);
      RunPhases(Step(s, acts[0]), acts[1..]);
    }
  }

  /**
    In every state of every run, whatever pools and restarts there were: what is under way can
    still take the queue if and only if the queue is empty, the controller is about to take it and
    need not wait for a drain that nobody runs, some drain or flush is under way, or the drain is
    unclaimed and somebody pushes.
   */
  lemma ServedExactlyWhen(acts: seq<Action>)
    requires IsRun(INITIAL, acts)
    ensures Served(After(INITIAL, acts)) <==> !Stuck(After(INITIAL, acts))
  {
    RunPhases(INITIAL, acts);
    ServedIff(After(INITIAL, acts));
  }

  lemma AttendedIsNotStuck(s: State)
    requires Attended(s) && Phases(s)
    ensures !Stuck(s)
  {
    if s.queue != [] && !Stops(s) {
      if !s.pool.live {
        Unpooled(s);
      } else if s.scheduled {
        var k :| 0 <= k < |s.threads| && Owner(s.threads[k]);
        assert Taker(s, s.threads[k]);
      } else {
        var k :| 0 <= k < |s.threads| && Looks(s.threads[k]);
        assert Taker(s, s.threads[k]);
      }
    }
  }

  lemma AttendedServes(s: State)
    requires Attended(s) && Phases(s)
    ensures Served(s)
  {
    AttendedIsNotStuck(s);
    ServedIff(s);
  }

  lemma {:induction false} RunAttended(s: State, acts: seq<Action>)
    requires Attended(s) && Phases(s) && SettledRun(s, acts) && AllUse(acts, true)
    ensures IsRun(s, acts) && Attended(After(s, acts)) && Phases(After(s, acts))
    decreases |acts|
  {
    hide Attended, Phases, Step, Can, Settled, Uses;
    if acts != [] {
      assert acts[0] in acts;
      StepAttended(s, acts[0]);
      PhasesKept(s, acts[0]);
      RunAttended(Step(s, acts[0]), acts[1..]);
    }
  }

  /**
    No event is ever stranded, in any interleaving of producers, drains, flushes, shutdowns and
    restarts, whether or not the pool accepts what it is given: provided that pools report the
    tasks they refuse and that a stopped pool is replaced only when no call is between push and
    submit, whatever is in the queue is taken by calls and tasks that are already under way.
   */
  lemma NoneStranded(acts: seq<Action>)
    requires SettledRun(INITIAL, acts) && AllUse(acts, true)
    ensures IsRun(INITIAL, acts) && Served(After(INITIAL, acts))
  {
    RunAttended(INITIAL, acts);
    AttendedServes(After(INITIAL, acts));
  }
}
