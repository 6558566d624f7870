/**
  The asynchronous half of src/logging/logger.cpp as a protocol: producers, drains, flushes and
  one controller thread interleave over a bounded queue and a few flags.  A step is one locked
  region or one atomic operation; memory is sequentially consistent.
 */
module AsyncLogger {

  type Event = nat

  type positive = x: int | x > 0 witness 1

  datatype Policy = Block | Discard | OverrunOldest

  /** An event and its number among the pushed ones, or -1 if it never was in the queue. */
  datatype Item = Item(n: int, e: Event)

  /** Where a thread is.  A thread that has finished stays in the list as Done. */
  datatype Pc =
    | Enter(e: Event)                           // enqueue_async, about to lock the queue
    | Parked(e: Event)                          // waiting for room
    | Direct(e: Event)                          // about to write without the queue
    | Pushed                                    // event queued, about to claim drain_scheduled_
    | Submitting                                // claimed, about to hand a drain to the pool
    | Failed                                    // the pool refused, about to release the claim
    | Queued(owned: bool)                       // a drain task its pool has not started
    | DrainTake                                 // about to take the queue
    | DrainWrite(batch: seq<Item>)              // about to write what it took
    | DrainAck                                  // about to acknowledge a flush request
    | DrainCheck                                // about to decide whether to stop
    | FlushStart | FlushRequest | FlushLoop     // flush, up to its wait loop
    | FlushClaim | FlushSubmit | FlushFailed    // submit_drain inside the wait loop
    | FlushAck | FlushTake                      // after the loop
    | FlushWrite(batch: seq<Item>)
    | Done

  datatype Config = Config(size: nat, policy: Policy, owns: bool, tracked: bool)

  datatype Next = Stop | Start(config: Config)

  /** Where the controller is in disable_async and enable_async. */
  datatype Control =
    | Idle
    | ClearRunning(next: Next) | ClearAsync(next: Next) | Join(next: Next)
    | FinalTake(next: Next) | FinalWrite(next: Next, batch: seq<Item>) | FinalAck(next: Next)
    | ResetQueue(config: Config) | StartPool(config: Config) | SetRunning | SetAsync

  /** live: the pool runs what it accepts; owns: disabling stops it; tracked: it reports a task it refused. */
  datatype Pool = Pool(live: bool, owns: bool, tracked: bool)

  datatype History = History(
    entered: multiset<Event>, dropped: multiset<Event>, pushed: seq<Event>, evicted: set<int>, lossy: bool)

  datatype State = State(
    queue: seq<Item>, capacity: positive, policy: Policy,
    async: bool, running: bool, scheduled: bool, flushRequested: bool,
    pool: Pool, control: Control, threads: seq<Pc>, written: seq<Item>, history: History)

  datatype Action =
    | Log(e: Event)                // log() has seen the asynchronous mode and calls enqueue_async
    | Flush
    | Disable
    | Enable(config: Config)
    | Thread(i: nat, yes: bool)    // yes: the pool accepts, or the flush goes on waiting
    | Controller

  const INITIAL := State([], 1024, Block, false, false, false, false, Pool(false, false, true), Idle, [], [],
                         History(multiset{}, multiset{}, [], {}, false))

  predicate Full(s: State) { |s.queue| == s.capacity }

  predicate Can(s: State, a: Action) {
    match a
    case Log(_) => s.async
    case Flush => true
    case Disable => s.control == Idle
    case Enable(config) => s.control == Idle && (config.owns ==> config.tracked)
    case Thread(i, _) =>
      i < |s.threads| && !s.threads[i].Done? && (s.threads[i].Parked? ==> !Full(s) || !s.running)
    case Controller => s.control != Idle && (s.control.Join? && s.pool.live && !s.pool.owns ==> !s.scheduled)
  }

  function Go(s: State, i: nat, pc: Pc): State
    requires i < |s.threads|
  {
    s.(threads := s.threads[i := pc])
  }

  /** overrun_oldest: the head of the queue makes room. */
  function Evict(s: State): State
    requires Full(s)
  {
    s.(queue := s.queue[1..],
       history := s.history.(dropped := s.history.dropped + multiset{s.queue[0].e},
                             evicted := s.history.evicted + {s.queue[0].n}))
  }

  function Push(s: State, i: nat, e: Event): State
    requires i < |s.threads|
  {
    Go(s, i, Pushed).(queue := s.queue + [Item(|s.history.pushed|, e)],
                      history := s.history.(pushed := s.history.pushed + [e]))
  }

  /** enqueue_async up to the unlock. */
  function EnterStep(s: State, i: nat, e: Event): State
    requires i < |s.threads|
  {
    if !s.async then Go(s, i, Direct(e))
    else if !Full(s) then Push(s, i, e)
    else match s.policy
      case Block => Go(s, i, Parked(e))
      case Discard => Go(s, i, Done).(history := s.history.(dropped := s.history.dropped + multiset{e}))
      case OverrunOldest =>
        Push(Evict(s), i, e)
  }

  /** The answer of the pool: a task it accepts runs only if it is live, a refusal is noticed only if tracked. */
  function Submit(s: State, i: nat, accepted: Pc, refused: Pc, yes: bool): State
    requires i < |s.threads|
  {
    if yes && s.pool.live then s.(threads := s.threads[i := accepted] + [Queued(s.pool.owns)])
    else if yes || !s.pool.tracked then s.(threads := s.threads[i := accepted])
    else s.(threads := s.threads[i := refused])
  }

  function Write(s: State, i: nat, batch: seq<Item>, then_: Pc): State
    requires i < |s.threads|
  {
    s.(written := s.written + batch, threads := s.threads[i := then_])
  }

  predicate IsProducer(pc: Pc) {
    pc.Enter? || pc.Parked? || pc.Direct? || pc.Pushed? || pc.Submitting? || pc.Failed?
  }

  /** enqueue_async and the submit_drain it ends with; a refused drain is run by the producer itself. */
  function ProducerStep(s: State, i: nat, yes: bool): State
    requires i < |s.threads| && IsProducer(s.threads[i])
  {
    match s.threads[i]
    case Enter(e) => EnterStep(s, i, e)
    case Parked(e) => if !s.running || !s.async then Go(s, i, Direct(e)) else Push(s, i, e)
    case Direct(e) => Write(s, i, [Item(-1, e)], Done)
    case Pushed => if s.scheduled then Go(s, i, Done) else Go(s, i, Submitting).(scheduled := true)
    case Submitting => Submit(s, i, Done, Failed, yes)
    case Failed => Go(s, i, DrainTake).(scheduled := false)
  }

  predicate IsDrain(pc: Pc) {
    pc.Queued? || pc.DrainTake? || pc.DrainWrite? || pc.DrainAck? || pc.DrainCheck?
  }

  /** drain_events */
  function DrainStep(s: State, i: nat): State
    requires i < |s.threads| && IsDrain(s.threads[i])
  {
    match s.threads[i]
    case Queued(_) => Go(s, i, DrainTake)
    case DrainTake => Go(s, i, DrainWrite(s.queue)).(queue := [])
    case DrainWrite(batch) => Write(s, i, batch, DrainAck)
    case DrainAck => Go(s, i, DrainCheck).(flushRequested := false)
    case DrainCheck =>
      if s.queue != [] || s.flushRequested then Go(s, i, DrainTake) else Go(s, i, Done).(scheduled := false)
  }

  predicate IsClaim(pc: Pc) {
    pc.FlushClaim? || pc.FlushSubmit? || pc.FlushFailed?
  }

  /** submit_drain inside the wait loop of flush, which ignores a refusal. */
  function ClaimStep(s: State, i: nat, yes: bool): State
    requires i < |s.threads| && IsClaim(s.threads[i])
  {
    match s.threads[i]
    case FlushClaim => if s.scheduled then Go(s, i, FlushLoop) else Go(s, i, FlushSubmit).(scheduled := true)
    case FlushSubmit => Submit(s, i, FlushLoop, FlushFailed, yes)
    case FlushFailed => Go(s, i, FlushLoop).(scheduled := false)
  }

  predicate IsFlush(pc: Pc) {
    pc.FlushStart? || pc.FlushRequest? || pc.FlushLoop? || pc.FlushAck? || pc.FlushTake? || pc.FlushWrite?
  }

  /** The rest of flush. */
  function FlushStep(s: State, i: nat, yes: bool): State
    requires i < |s.threads| && IsFlush(s.threads[i])
  {
    match s.threads[i]
    case FlushStart => if s.async && s.pool.live then Go(s, i, FlushRequest) else Go(s, i, FlushTake)
    case FlushRequest => Go(s, i, FlushLoop).(flushRequested := true)
    case FlushLoop => if s.flushRequested && s.running && yes then Go(s, i, FlushClaim) else Go(s, i, FlushAck)
    case FlushAck => Go(s, i, FlushTake).(flushRequested := false)
    case FlushTake => Go(s, i, FlushWrite(s.queue)).(queue := [])
    case FlushWrite(batch) => Write(s, i, batch, Done)
  }

  function ThreadStep(s: State, i: nat, yes: bool): State
    requires i < |s.threads|
  {
    var pc := s.threads[i];
    if IsProducer(pc) then ProducerStep(s, i, yes)
    else if IsDrain(pc) then DrainStep(s, i)
    else if IsClaim(pc) then ClaimStep(s, i, yes)
    else if IsFlush(pc) then FlushStep(s, i, yes)
    else s
  }

  /** A pool that stops clears its queues: the tasks it has not started are gone. */
  function Dropped(threads: seq<Pc>): (r: seq<Pc>)
    ensures |r| == |threads|
    ensures forall i | 0 <= i < |threads| :: r[i] == if threads[i] == Queued(true) then Done else threads[i]
  {
    seq(|threads|, i requires 0 <= i < |threads| => if threads[i] == Queued(true) then Done else threads[i])
  }

  function ControlStep(s: State): State {
    match s.control
    case Idle => s
    case ClearRunning(next) => s.(running := false, control := ClearAsync(next))
    case ClearAsync(next) => s.(async := false, control := Join(next))
    case Join(next) =>
      if s.pool.live && s.pool.owns
      then s.(pool := s.pool.(live := false), threads := Dropped(s.threads), control := FinalTake(next))
      else s.(control := FinalTake(next))
    case FinalTake(next) => s.(queue := [], scheduled := false, control := FinalWrite(next, s.queue))
    case FinalWrite(next, batch) => s.(written := s.written + batch, control := FinalAck(next))
    case FinalAck(next) =>
      s.(flushRequested := false, control := match next case Stop => Idle case Start(c) => ResetQueue(c))
    case ResetQueue(c) =>
      s.(queue := [], capacity := if c.size == 0 then 1 else c.size,
         scheduled := false, flushRequested := false, control := StartPool(c))
    case StartPool(c) =>
      s.(policy := c.policy, pool := Pool(true, c.owns, c.tracked),
         history := s.history.(lossy := s.history.lossy || c.policy != Block), control := SetRunning)
    case SetRunning => s.(running := true, control := SetAsync)
    case SetAsync => s.(async := true, control := Idle)
  }

  function Step(s: State, a: Action): State
    requires Can(s, a)
  {
    match a
    case Log(e) =>
      s.(threads := s.threads + [Enter(e)], history := s.history.(entered := s.history.entered + multiset{e}))
    case Flush => s.(threads := s.threads + [FlushStart])
    case Disable => if s.async then s.(control := ClearRunning(Stop)) else s
    case Enable(c) => s.(control := if s.async then ClearRunning(Start(c)) else ResetQueue(c))
    case Thread(i, yes) => ThreadStep(s, i, yes)
    case Controller => ControlStep(s)
  }

  predicate IsRun(s: State, acts: seq<Action>)
    decreases |acts|
  {
    acts == [] || (Can(s, acts[0]) && IsRun(Step(s, acts[0]), acts[1..]))
  }

  function After(s: State, acts: seq<Action>): State
    requires IsRun(s, acts)
    decreases |acts|
  {
    if acts == [] then s else After(Step(s, acts[0]), acts[1..])
  }

  // ---- Phases of the controller --------------------------------------------

  predicate Stopped(c: Control) {
    c.FinalWrite? || c.FinalAck? || c.ResetQueue? || c.StartPool? || c.SetRunning? || c.SetAsync?
  }

  /** What the flags say in each phase; in particular the queue is empty whenever it is replaced. */
  predicate Phases(s: State) {
    && |s.queue| <= s.capacity
    && s.async == (if s.control == Idle then s.running else s.control.ClearRunning? || s.control.ClearAsync?)
    && (s.control != Idle ==> s.running == (s.control.ClearRunning? || s.control.SetAsync?))
    && (s.async || s.control.Join? || s.control.SetRunning? || s.control.SetAsync? ==> s.pool.live)
    && (Stopped(s.control) || (s.control == Idle && !s.async) ==> s.queue == [])
  }

  lemma PhasesInPush(s: State, i: nat, e: Event)
    requires Phases(s) && i < |s.threads| && !Full(s) && s.async
    ensures Phases(Push(s, i, e))
  {
  }

  lemma PhasesInEvict(s: State)
    requires Phases(s) && Full(s)
    ensures Phases(Evict(s)) && !Full(Evict(s))
  {
  }

  lemma PhasesInEnter(s: State, i: nat, e: Event)
    requires Phases(s) && i < |s.threads|
    ensures Phases(EnterStep(s, i, e))
  {
    hide Push, Evict;
    if s.async && !Full(s) {
      PhasesInPush(s, i, e);
    } else if s.async && s.policy == OverrunOldest {
      PhasesInEvict(s);
      EvictKeepsPlace(s);
      PhasesInPush(Evict(s), i, e);
    }
  }

  lemma EvictKeepsPlace(s: State)
    requires Full(s)
    ensures Evict(s).threads == s.threads && Evict(s).async == s.async
  {
  }

  lemma PhasesInSubmit(s: State, i: nat, accepted: Pc, refused: Pc, yes: bool)
    requires Phases(s) && i < |s.threads|
    ensures Phases(Submit(s, i, accepted, refused, yes))
  {
  }

  lemma PhasesInProducer(s: State, i: nat, yes: bool)
    requires Phases(s) && Can(s, Thread(i, yes)) && IsProducer(s.threads[i])
    ensures Phases(ProducerStep(s, i, yes))
  {
    hide EnterStep, Push, Submit;
    match s.threads[i]
    case Submitting => PhasesInSubmit(s, i, Done, Failed, yes);
    case Enter(e) => PhasesInEnter(s, i, e);
    case Parked(e) =>
      if s.running && s.async {
        PhasesInPush(s, i, e);
      }
    case _ =>
  }

  lemma PhasesInDrain(s: State, i: nat)
    requires Phases(s) && i < |s.threads| && IsDrain(s.threads[i])
    ensures Phases(DrainStep(s, i))
  {
  }

  lemma PhasesInClaim(s: State, i: nat, yes: bool)
    requires Phases(s) && i < |s.threads| && IsClaim(s.threads[i])
    ensures Phases(ClaimStep(s, i, yes))
  {
  }

  lemma PhasesInFlush(s: State, i: nat, yes: bool)
    requires Phases(s) && i < |s.threads| && IsFlush(s.threads[i])
    ensures Phases(FlushStep(s, i, yes))
  {
  }

  lemma PhasesInControl(s: State)
    requires Phases(s) && Can(s, Controller)
    ensures Phases(ControlStep(s))
  {
  }

  lemma PhasesKept(s: State, a: Action)
    requires Phases(s) && Can(s, a)
    ensures Phases(Step(s, a))
  {
    hide ProducerStep, DrainStep, ClaimStep, FlushStep, ControlStep;
    match a
    case Thread(i, yes) =>
      if IsProducer(s.threads[i]) {
        PhasesInProducer(s, i, yes);
      } else if IsDrain(s.threads[i]) {
        PhasesInDrain(s, i);
      } else if IsClaim(s.threads[i]) {
        PhasesInClaim(s, i, yes);
      } else {
        PhasesInFlush(s, i, yes);
      }
    case Controller => PhasesInControl(s);
    case _ =>
  }
}
