/**
  What flush promises when it returns.  Every pushed event has a number, and each number is in
  exactly one place; a flush that has taken the queue leaves no earlier number in it.
 */
module LoggerFlush {
  import opened AsyncLogger
  import opened LoggerConservation
  import opened LoggerDelivery
  import opened LoggerLiveness
  import opened LoggerStranding

  /** How often number n is among the items. */
  function Occurs(items: seq<Item>, n: nat): nat {
    if items == [] then 0 else (if items[0].n == n then 1 else 0) + Occurs(items[1..], n)
  }

  /** ... among what a thread took and has not written yet. */
  function Hand(pc: Pc, n: nat): nat {
    if pc.DrainWrite? || pc.FlushWrite? then Occurs(pc.batch, n) else 0
  }

  function HandOf(n: nat): Pc -> nat {
    pc => Hand(pc, n)
  }

  /** ... among what the controller took. */
  function FinalHand(c: Control, n: nat): nat {
    if c.FinalWrite? then Occurs(c.batch, n) else 0
  }

  function Gone(s: State, n: nat): nat { if n in s.history.evicted then 1 else 0 }

  /** All the places where number n can be. */
  function Places(s: State, n: nat): nat {
    Occurs(s.written, n) + Occurs(s.queue, n) + Sum(s.threads, HandOf(n)) + FinalHand(s.control, n) + Gone(s, n)
  }

  /** A number that was given out is in exactly one place. */
  predicate Once(s: State, n: nat) {
    Places(s, n) == if n < |s.history.pushed| then 1 else 0
  }

  lemma {:induction false} OccursConcat(a: seq<Item>, b: seq<Item>, n: nat)
    ensures Occurs(a + b, n) == Occurs(a, n) + Occurs(b, n)
  {
    if a == [] {
      assert a + b == b;
    } else {
      assert (a + b)[1..] == a[1..] + b;
      OccursConcat(a[1..], b, n);
    }
  }

  lemma OccursOne(item: Item, n: nat)
    ensures Occurs([item], n) == if item.n == n then 1 else 0
  {
  }

  // ---- One step ------------------------------------------------------------

  /** A thread moves on; what changes hands elsewhere is made up for. */
  lemma HandsOver(s: State, t: State, i: nat, pc: Pc, spawned: seq<Pc>, n: nat)
    requires Once(s, n) && i < |s.threads| && t.threads == s.threads[i := pc] + spawned
    requires |spawned| <= 1 && (forall k | 0 <= k < |spawned| :: spawned[k].Queued?)
    requires t.control == s.control && t.history.evicted == s.history.evicted && t.history.pushed == s.history.pushed
    requires Occurs(t.written, n) + Occurs(t.queue, n) + Hand(pc, n) ==
      Occurs(s.written, n) + Occurs(s.queue, n) + Hand(s.threads[i], n)
    ensures Once(t, n)
  {
    hide Sum, Hand, Occurs;
    SumUpdate(s.threads, i, pc, HandOf(n));
    if spawned == [] {
      assert t.threads == s.threads[i := pc];
    } else {
      assert spawned == [spawned[0]];
      SumAppend(s.threads[i := pc], spawned[0], HandOf(n));
      EmptyHand(spawned[0], n);
    }
  }

  lemma EmptyHand(pc: Pc, n: nat)
    requires !pc.DrainWrite? && !pc.FlushWrite?
    ensures Hand(pc, n) == 0
  {
  }

  lemma PushOnce(s: State, i: nat, e: Event, n: nat)
    requires Once(s, n) && i < |s.threads| && (s.threads[i].Enter? || s.threads[i].Parked?)
    ensures Once(Push(s, i, e), n)
  {
    hide Sum, Hand, Occurs;
    var item := Item(|s.history.pushed|, e);
    OccursConcat(s.queue, [item], n);
    OccursOne(item, n);
    SumUpdate(s.threads, i, Pushed, HandOf(n));
    EmptyHand(s.threads[i], n);
    EmptyHand(Pushed, n);
  }

  lemma EvictOnce(s: State, n: nat)
    requires Once(s, n) && Full(s)
    ensures Once(Evict(s), n) && Evict(s).threads == s.threads
  {
    hide Sum, Hand;
  }

  lemma EnterOnce(s: State, i: nat, e: Event, n: nat)
    requires Once(s, n) && i < |s.threads| && s.threads[i] == Enter(e)
    ensures Once(EnterStep(s, i, e), n)
  {
    hide Once, Push, Evict, Hand, Occurs, Sum;
    if s.async && !Full(s) {
      PushOnce(s, i, e, n);
    } else if s.async && s.policy == OverrunOldest {
      EvictOnce(s, n);
      PushOnce(Evict(s), i, e, n);
    } else {
      var t := EnterStep(s, i, e);
      var pc := t.threads[i];
      assert t.threads == s.threads[i := pc] + [];
      EmptyHand(s.threads[i], n);
      EmptyHand(pc, n);
      HandsOver(s, t, i, pc, [], n);
    }
  }

  /** A step that neither takes, writes nor pushes. */
  lemma IdleOnce(s: State, t: State, i: nat, pc: Pc, n: nat)
    requires Once(s, n) && i < |s.threads| && t.threads == s.threads[i := pc]
    requires t.control == s.control && t.history == s.history && t.written == s.written && t.queue == s.queue
    requires !pc.DrainWrite? && !pc.FlushWrite? && !s.threads[i].DrainWrite? && !s.threads[i].FlushWrite?
    ensures Once(t, n)
  {
    hide Once, Hand, Occurs;
    assert t.threads == s.threads[i := pc] + [];
    EmptyHand(s.threads[i], n);
    EmptyHand(pc, n);
    HandsOver(s, t, i, pc, [], n);
  }

  lemma SubmitOnce(s: State, i: nat, accepted: Pc, refused: Pc, yes: bool, n: nat)
    requires Once(s, n) && i < |s.threads| && (s.threads[i].Submitting? || s.threads[i].FlushSubmit?)
    requires !accepted.DrainWrite? && !accepted.FlushWrite? && !refused.DrainWrite? && !refused.FlushWrite?
    ensures Once(Submit(s, i, accepted, refused, yes), n)
  {
    hide Once, Hand, Occurs;
    var t := Submit(s, i, accepted, refused, yes);
    if yes && s.pool.live {
      EmptyHand(s.threads[i], n);
      EmptyHand(accepted, n);
      HandsOver(s, t, i, accepted, [Queued(s.pool.owns)], n);
    } else {
      IdleOnce(s, t, i, if yes || !s.pool.tracked then accepted else refused, n);
    }
  }

  /** Taking the whole queue into the hand. */
  lemma TakeOnce(s: State, t: State, i: nat, pc: Pc, n: nat)
    requires Once(s, n) && i < |s.threads| && t == Go(s, i, pc).(queue := [])
    requires (pc == DrainWrite(s.queue) || pc == FlushWrite(s.queue)) && !s.threads[i].DrainWrite? &&
      !s.threads[i].FlushWrite?
    ensures Once(t, n)
  {
    hide Once;
    assert t.threads == s.threads[i := pc] + [];
    EmptyHand(s.threads[i], n);
    HandsOver(s, t, i, pc, [], n);
  }

  /** Writing what is in the hand. */
  lemma WriteOnce(s: State, i: nat, pc: Pc, n: nat)
    requires Once(s, n) && i < |s.threads| && (s.threads[i].DrainWrite? || s.threads[i].FlushWrite?)
    requires !pc.DrainWrite? && !pc.FlushWrite?
    ensures Once(Write(s, i, s.threads[i].batch, pc), n)
  {
    hide Once;
    var t := Write(s, i, s.threads[i].batch, pc);
    assert t.threads == s.threads[i := pc] + [];
    OccursConcat(s.written, s.threads[i].batch, n);
    HandsOver(s, t, i, pc, [], n);
  }

  /** Writing around the queue uses no number. */
  lemma DirectOnce(s: State, i: nat, e: Event, n: nat)
    requires Once(s, n) && i < |s.threads| && s.threads[i] == Direct(e)
    ensures Once(Write(s, i, [Item(-1, e)], Done), n)
  {
    hide Once;
    var t := Write(s, i, [Item(-1, e)], Done);
    assert t.threads == s.threads[i := Done] + [];
    OccursConcat(s.written, [Item(-1, e)], n);
    OccursOne(Item(-1, e), n);
    HandsOver(s, t, i, Done, [], n);
  }

  lemma ProducerOnce(s: State, i: nat, yes: bool, n: nat)
    requires Once(s, n) && i < |s.threads| && IsProducer(s.threads[i])
    ensures Once(ProducerStep(s, i, yes), n)
  {
    hide Once, Push, EnterStep, Submit;
    match s.threads[i]
    case Enter(e) => EnterOnce(s, i, e, n);
    case Parked(e) =>
      if !s.running || !s.async {
        IdleOnce(s, Go(s, i, Direct(e)), i, Direct(e), n);
      } else {
        PushOnce(s, i, e, n);
      }
    case Direct(e) => DirectOnce(s, i, e, n);
    case Submitting => SubmitOnce(s, i, Done, Failed, yes, n);
    case Pushed => IdleOnce(s, ProducerStep(s, i, yes), i, ProducerStep(s, i, yes).threads[i], n);
    case Failed => IdleOnce(s, ProducerStep(s, i, yes), i, DrainTake, n);
  }

  lemma DrainOnce(s: State, i: nat, n: nat)
    requires Once(s, n) && i < |s.threads| && IsDrain(s.threads[i])
    ensures Once(DrainStep(s, i), n)
  {
    hide Once;
    var pc := s.threads[i];
    if pc.DrainTake? {
      TakeOnce(s, DrainStep(s, i), i, DrainWrite(s.queue), n);
    } else if pc.DrainWrite? {
      WriteOnce(s, i, DrainAck, n);
    } else {
      IdleOnce(s, DrainStep(s, i), i, DrainStep(s, i).threads[i], n);
    }
  }

  lemma ClaimOnce(s: State, i: nat, yes: bool, n: nat)
    requires Once(s, n) && i < |s.threads| && IsClaim(s.threads[i])
    ensures Once(ClaimStep(s, i, yes), n)
  {
    hide Once, Submit;
    if s.threads[i].FlushSubmit? {
      SubmitOnce(s, i, FlushLoop, FlushFailed, yes, n);
    } else {
      IdleOnce(s, ClaimStep(s, i, yes), i, ClaimStep(s, i, yes).threads[i], n);
    }
  }

  lemma FlushOnce(s: State, i: nat, yes: bool, n: nat)
    requires Once(s, n) && i < |s.threads| && IsFlush(s.threads[i])
    ensures Once(FlushStep(s, i, yes), n)
  {
    hide Once;
    var pc := s.threads[i];
    if pc.FlushTake? {
      TakeOnce(s, FlushStep(s, i, yes), i, FlushWrite(s.queue), n);
    } else if pc.FlushWrite? {
      WriteOnce(s, i, Done, n);
    } else {
      IdleOnce(s, FlushStep(s, i, yes), i, FlushStep(s, i, yes).threads[i], n);
    }
  }

  /** Unstarted tasks have nothing in their hands. */
  lemma {:induction false} DroppedHands(threads: seq<Pc>, n: nat)
    ensures Sum(Dropped(threads), HandOf(n)) == Sum(threads, HandOf(n))
  {
    forall k | 0 <= k < |threads| ensures Hand(Dropped(threads)[k], n) == Hand(threads[k], n) {
    }
    SumBelow(threads, Dropped(threads), HandOf(n));
    SumBelow(Dropped(threads), threads, HandOf(n));
  }

  lemma ControlOnce(s: State, n: nat)
    requires Once(s, n) && Phases(s)
    ensures Once(ControlStep(s), n)
  {
    hide Sum, Hand;
    DroppedHands(s.threads, n);
    if s.control.FinalWrite? {
      OccursConcat(s.written, s.control.batch, n);
    }
  }

  lemma StepOnce(s: State, a: Action, n: nat)
    requires Once(s, n) && Phases(s) && Can(s, a)
    ensures Once(Step(s, a), n)
  {
    hide ProducerStep, DrainStep, ClaimStep, FlushStep, ControlStep, Sum, Hand, Phases;
    match a
    case Log(e) =>
      SumAppend(s.threads, Enter(e), HandOf(n));
      EmptyHand(Enter(e), n);
    case Flush =>
      SumAppend(s.threads, FlushStart, HandOf(n));
      EmptyHand(FlushStart, n);
    case Thread(i, yes) =>
      if IsProducer(s.threads[i]) {
        ProducerOnce(s, i, yes, n);
      } else if IsDrain(s.threads[i]) {
        DrainOnce(s, i, n);
      } else if IsClaim(s.threads[i]) {
        ClaimOnce(s, i, yes, n);
      } else {
        FlushOnce(s, i, yes, n);
      }
    case Controller => ControlOnce(s, n);
    case _ =>
  }

  lemma {:induction false} RunOnce(s: State, acts: seq<Action>, n: nat)
    requires Once(s, n) && Phases(s) && IsRun(s, acts)
    ensures Once(After(s, acts), n) && Phases(After(s, acts))
    decreases |acts|
  {
    hide Once, Phases, Step, Can;
    if acts != [] {
      StepOnce(s, acts[0], n);
      PhasesKept(s, acts[0]);
      RunOnce(Step(s, acts[0]), acts[1..], n);
    }
  }

  // ---- After a flush -------------------------------------------------------

  /** Every event in the queue has a number from first on. */
  predicate NewerThan(s: State, first: nat) {
    first <= |s.history.pushed| && forall k | 0 <= k < |s.queue| :: s.queue[k].n >= first
  }

  lemma {:induction false} NotQueued(items: seq<Item>, first: nat, n: nat)
    requires n < first && forall k | 0 <= k < |items| :: items[k].n >= first
    ensures Occurs(items, n) == 0
  {
    if items != [] {
      NotQueued(items[1..], first, n);
    }
  }

  lemma EnterStaysNewer(s: State, i: nat, e: Event, first: nat)
    requires NewerThan(s, first) && i < |s.threads|
    ensures NewerThan(EnterStep(s, i, e), first)
  {
  }

  lemma ProducerStaysNewer(s: State, i: nat, yes: bool, first: nat)
    requires NewerThan(s, first) && i < |s.threads| && IsProducer(s.threads[i])
    ensures NewerThan(ProducerStep(s, i, yes), first)
  {
    hide EnterStep;
    if s.threads[i].Enter? {
      EnterStaysNewer(s, i, s.threads[i].e, first);
    }
  }

  /** Nothing is pushed, and the queue stays or is taken. */
  predicate NoPush(s: State, t: State) {
    t.history == s.history && (t.queue == s.queue || t.queue == [])
  }

  lemma DrainPushesNothing(s: State, i: nat)
    requires i < |s.threads| && IsDrain(s.threads[i])
    ensures NoPush(s, DrainStep(s, i))
  {
  }

  lemma ClaimPushesNothing(s: State, i: nat, yes: bool)
    requires i < |s.threads| && IsClaim(s.threads[i])
    ensures NoPush(s, ClaimStep(s, i, yes))
  {
  }

  lemma FlushPushesNothing(s: State, i: nat, yes: bool)
    requires i < |s.threads| && IsFlush(s.threads[i])
    ensures NoPush(s, FlushStep(s, i, yes))
  {
  }

  lemma NoPushStaysNewer(s: State, t: State, first: nat)
    requires NewerThan(s, first) && NoPush(s, t)
    ensures NewerThan(t, first)
  {
  }

  lemma ThreadStaysNewer(s: State, i: nat, yes: bool, first: nat)
    requires NewerThan(s, first) && i < |s.threads|
    ensures NewerThan(ThreadStep(s, i, yes), first)
  {
    hide ProducerStep, DrainStep, ClaimStep, FlushStep, NewerThan, NoPush;
    var pc := s.threads[i];
    if IsProducer(pc) {
      ProducerStaysNewer(s, i, yes, first);
    } else if IsDrain(pc) {
      DrainPushesNothing(s, i);
      NoPushStaysNewer(s, DrainStep(s, i), first);
    } else if IsClaim(pc) {
      ClaimPushesNothing(s, i, yes);
      NoPushStaysNewer(s, ClaimStep(s, i, yes), first);
    } else if IsFlush(pc) {
      FlushPushesNothing(s, i, yes);
      NoPushStaysNewer(s, FlushStep(s, i, yes), first);
    }
  }

  lemma ControlTakes(s: State)
    ensures ControlStep(s).queue == s.queue || ControlStep(s).queue == []
  {
    hide Dropped;
  }

  lemma ControlPushesNothing(s: State)
    ensures ControlStep(s).history.pushed == s.history.pushed && ControlStep(s).history.evicted == s.history.evicted
  {
    hide Dropped;
  }

  lemma StaysNewer(s: State, a: Action, first: nat)
    requires NewerThan(s, first) && Can(s, a)
    ensures NewerThan(Step(s, a), first)
  {
    hide ThreadStep, ControlStep;
    if a.Thread? {
      ThreadStaysNewer(s, a.i, a.yes, first);
    } else {
      ControlPushesNothing(s);
      ControlTakes(s);
    }
  }

  /** Written, evicted, or in the hands of this flush. */
  predicate Safe(s: State, i: nat, n: nat) {
    || Occurs(s.written, n) >= 1
    || n in s.history.evicted
    || (i < |s.threads| && s.threads[i].FlushWrite? && Occurs(s.threads[i].batch, n) >= 1)
  }

  /** What is out stays out, and a thread is moved by nobody else. */
  predicate Goes(s: State, t: State, i: nat) {
    s.written <= t.written && s.history.evicted <= t.history.evicted && |s.threads| <= |t.threads| &&
    (i < |s.threads| && s.threads[i].FlushWrite? ==>
      t.threads[i] == s.threads[i] || s.written + s.threads[i].batch <= t.written)
  }

  lemma PushGoes(s: State, k: nat, e: Event, i: nat)
    requires k < |s.threads| && s.threads[k].Enter?
    ensures Goes(s, Push(s, k, e), i)
  {
  }

  lemma EvictGoes(s: State, i: nat)
    requires Full(s)
    ensures Goes(s, Evict(s), i) && Evict(s).threads == s.threads && Evict(s).written == s.written
  {
  }

  lemma EnterGoes(s: State, k: nat, e: Event, i: nat)
    requires k < |s.threads| && s.threads[k] == Enter(e)
    ensures Goes(s, EnterStep(s, k, e), i)
  {
    hide Push, Evict;
    if s.async && !Full(s) {
      PushGoes(s, k, e, i);
    } else if s.async && s.policy == OverrunOldest {
      EvictGoes(s, i);
      PushGoes(Evict(s), k, e, i);
    }
  }

  lemma ProducerGoes(s: State, k: nat, yes: bool, i: nat)
    requires k < |s.threads| && IsProducer(s.threads[k])
    ensures Goes(s, ProducerStep(s, k, yes), i)
  {
    hide EnterStep;
    if s.threads[k].Enter? {
      EnterGoes(s, k, s.threads[k].e, i);
    }
  }

  lemma DrainGoes(s: State, k: nat, i: nat)
    requires k < |s.threads| && IsDrain(s.threads[k])
    ensures Goes(s, DrainStep(s, k), i)
  {
  }

  lemma ClaimGoes(s: State, k: nat, yes: bool, i: nat)
    requires k < |s.threads| && IsClaim(s.threads[k])
    ensures Goes(s, ClaimStep(s, k, yes), i)
  {
  }

  lemma FlushGoes(s: State, k: nat, yes: bool, i: nat)
    requires k < |s.threads| && IsFlush(s.threads[k])
    ensures Goes(s, FlushStep(s, k, yes), i)
  {
  }

  lemma ThreadGoes(s: State, k: nat, yes: bool, i: nat)
    requires k < |s.threads|
    ensures Goes(s, ThreadStep(s, k, yes), i)
  {
    hide ProducerStep, DrainStep, ClaimStep, FlushStep;
    var pc := s.threads[k];
    if IsProducer(pc) {
      ProducerGoes(s, k, yes, i);
    } else if IsDrain(pc) {
      DrainGoes(s, k, i);
    } else if IsClaim(pc) {
      ClaimGoes(s, k, yes, i);
    } else if IsFlush(pc) {
      FlushGoes(s, k, yes, i);
    }
  }

  lemma ControlWrites(s: State)
    ensures s.written <= ControlStep(s).written
  {
    hide Dropped;
  }

  lemma ControlGoes(s: State, i: nat)
    requires s.control != Idle
    ensures Goes(s, ControlStep(s), i)
  {
    hide ControlStep;
    ControlWrites(s);
    ControlPushesNothing(s);
    ControlMoves(s);
  }

  lemma StepGoes(s: State, a: Action, i: nat)
    requires Can(s, a)
    ensures Goes(s, Step(s, a), i)
  {
    hide ThreadStep, ControlStep;
    if a.Thread? {
      hide Goes;
      ThreadGoes(s, a.i, a.yes, i);
    } else if a.Controller? {
      hide Goes;
      ControlGoes(s, i);
    }
  }

  lemma StaysOut(a: seq<Item>, b: seq<Item>, n: nat)
    requires a <= b
    ensures Occurs(a, n) <= Occurs(b, n)
  {
    OccursConcat(a, b[|a|..], n);
    assert a + b[|a|..] == b;
  }

  lemma StepSafe(s: State, a: Action, i: nat, n: nat)
    requires Can(s, a) && Safe(s, i, n)
    ensures Safe(Step(s, a), i, n)
  {
    hide Step, Can, Occurs;
    StepGoes(s, a, i);
    StaysOut(s.written, Step(s, a).written, n);
    if i < |s.threads| && s.threads[i].FlushWrite? && Step(s, a).threads[i] != s.threads[i] {
      OccursConcat(s.written, s.threads[i].batch, n);
      StaysOut(s.written + s.threads[i].batch, Step(s, a).written, n);
    }
  }

  lemma {:induction false} RunSafe(s: State, acts: seq<Action>, first: nat, i: nat, n: nat)
    requires IsRun(s, acts) && NewerThan(s, first)
    ensures NewerThan(After(s, acts), first) && (Safe(s, i, n) ==> Safe(After(s, acts), i, n))
    decreases |acts|
  {
    hide Step, Can, NewerThan, Safe;
    if acts != [] {
      StaysNewer(s, acts[0], first);
      if Safe(s, i, n) {
        StepSafe(s, acts[0], i, n);
      }
      RunSafe(Step(s, acts[0]), acts[1..], first, i, n);
    }
  }

  /** In somebody's hands. */
  predicate InHands(s: State, n: nat) {
    Sum(s.threads, HandOf(n)) + FinalHand(s.control, n) >= 1
  }

  /** Written, or evicted by overrun_oldest. */
  predicate Out(s: State, n: nat) {
    Occurs(s.written, n) == 1 || n in s.history.evicted
  }

  lemma StartsOnce(n: nat)
    ensures Once(INITIAL, n) && Phases(INITIAL)
  {
  }

  /**
    The flush of thread i takes the queue in state s and has returned in state u.  Every event
    pushed before it took the queue is then either out or in the hands of another drain, of another
    flush or of the controller; and it is out if nobody else held it when the queue was taken.
   */
  lemma FlushReturns(acts: seq<Action>, i: nat, yes: bool, more: seq<Action>, n: nat)
    requires IsRun(INITIAL, acts)
    requires i < |After(INITIAL, acts).threads| && After(INITIAL, acts).threads[i].FlushTake?
    requires IsRun(Step(After(INITIAL, acts), Thread(i, yes)), more)
    requires
      var u := After(Step(After(INITIAL, acts), Thread(i, yes)), more);
      i < |u.threads| && u.threads[i].Done?
    requires n < |After(INITIAL, acts).history.pushed|
    ensures
      var s := After(INITIAL, acts);
      var u := After(Step(s, Thread(i, yes)), more);
      && Occurs(u.queue, n) == 0 && Out(u, n) == !InHands(u, n)
      && (!InHands(s, n) ==> Out(u, n))
  {
    hide Step, Can, Once, Phases, NewerThan, Safe, After, IsRun;
    var s := After(INITIAL, acts);
    var first := |s.history.pushed|;
    StartsOnce(n);
    RunOnce(INITIAL, acts, n);
    var a := Thread(i, yes);
    Taken(s, i, yes, first, n);
    var t := Step(s, a);
    StepOnce(s, a, n);
    PhasesKept(s, a);
    RunOnce(t, more, n);
    RunSafe(t, more, first, i, n);
    var u := After(t, more);
    Returned(u, i, first, n);
  }

  /** Taking the queue. */
  lemma Taken(s: State, i: nat, yes: bool, first: nat, n: nat)
    requires i < |s.threads| && s.threads[i].FlushTake? && first == |s.history.pushed| && Once(s, n) && n < first
    ensures Can(s, Thread(i, yes)) && NewerThan(Step(s, Thread(i, yes)), first)
    ensures |Step(s, Thread(i, yes)).history.pushed| == first
    ensures !InHands(s, n) ==> Safe(Step(s, Thread(i, yes)), i, n)
  {
    hide Sum, Occurs;
  }

  /** Having returned. */
  lemma Returned(u: State, i: nat, first: nat, n: nat)
    requires Once(u, n) && NewerThan(u, first) && n < first && i < |u.threads| && u.threads[i].Done?
    ensures Occurs(u.queue, n) == 0 && Out(u, n) == !InHands(u, n) && (Safe(u, i, n) ==> Out(u, n))
  {
    hide Sum;
    NotQueued(u.queue, first, n);
  }

  /** So flush has got everything written exactly when, at its return, nobody holds an earlier event. */
  lemma FlushWritesAllIff(acts: seq<Action>, i: nat, yes: bool, more: seq<Action>)
    requires IsRun(INITIAL, acts)
    requires i < |After(INITIAL, acts).threads| && After(INITIAL, acts).threads[i].FlushTake?
    requires IsRun(Step(After(INITIAL, acts), Thread(i, yes)), more)
    requires
      var u := After(Step(After(INITIAL, acts), Thread(i, yes)), more);
      i < |u.threads| && u.threads[i].Done?
    ensures
      var s := After(INITIAL, acts);
      var u := After(Step(s, Thread(i, yes)), more);
      && ((forall n: nat | n < |s.history.pushed| :: Out(u, n)) <==>
           forall n: nat | n < |s.history.pushed| :: !InHands(u, n))
      && ((forall n: nat | n < |s.history.pushed| :: !InHands(s, n)) ==>
           forall n: nat | n < |s.history.pushed| :: Out(u, n))
  {
    hide Step, After, IsRun, InHands, Out, Occurs;
    forall n: nat | n < |After(INITIAL, acts).history.pushed|
      ensures
        var s := After(INITIAL, acts);
        var u := After(Step(s, Thread(i, yes)), more);
        Out(u, n) == !InHands(u, n) && (!InHands(s, n) ==> Out(u, n))
    {
      FlushReturns(acts, i, yes, more, n);
    }
  }

  /** Thread i has returned, and every number below first is out. */
  predicate ReturnedAt(u: State, i: nat) {
    i < |u.threads| && u.threads[i].Done?
  }

  ghost predicate AllOut(u: State, first: nat) {
    forall n: nat | n < first :: Out(u, n)
  }

  /** The flush returns at once, and what others hold they hold still. */
  lemma AtOnce(s: State, i: nat, yes: bool, n: nat)
    requires i < |s.threads| && s.threads[i].FlushTake?
    ensures
      var t := Step(s, Thread(i, yes));
      && Can(s, Thread(i, yes)) && IsRun(t, [Thread(i, true)])
      && var u := After(t, [Thread(i, true)]);
         ReturnedAt(u, i) && InHands(u, n) == InHands(s, n)
  {
    hide Sum, Occurs;
    var t := Step(s, Thread(i, yes));
    var u := Step(t, Thread(i, true));
    assert [Thread(i, true)][1..] == [];
    assert u.threads == s.threads[i := Done];
    SumUpdate(s.threads, i, Done, HandOf(n));
    EmptyHand(s.threads[i], n);
    EmptyHand(Done, n);
  }

  /**
    In terms of the moment at which flush takes the queue: however things go on until it returns,
    everything pushed before is out, if and only if nobody else holds an earlier event at that moment.
   */
  lemma FlushGuarantee(acts: seq<Action>, i: nat, yes: bool)
    requires IsRun(INITIAL, acts)
    requires i < |After(INITIAL, acts).threads| && After(INITIAL, acts).threads[i].FlushTake?
    ensures
      var s := After(INITIAL, acts);
      var t := Step(s, Thread(i, yes));
      (forall more | IsRun(t, more) && ReturnedAt(After(t, more), i) :: AllOut(After(t, more), |s.history.pushed|)) <==>
      (forall n: nat | n < |s.history.pushed| :: !InHands(s, n))
  {
    hide Step, Can, After, IsRun, InHands, Out, Occurs;
    var s := After(INITIAL, acts);
    AtOnce(s, i, yes, 0);
    var t := Step(s, Thread(i, yes));
    var first := |s.history.pushed|;
    if forall n: nat | n < first :: !InHands(s, n) {
      forall more | IsRun(t, more) && ReturnedAt(After(t, more), i)
        ensures AllOut(After(t, more), first)
      {
        FlushWritesAllIff(acts, i, yes, more);
      }
    } else {
      var n: nat :| n < first && InHands(s, n);
      var more := [Thread(i, true)];
      AtOnce(s, i, yes, n);
      FlushReturns(acts, i, yes, more, n);
      assert !AllOut(After(t, more), first);
    }
  }

  // ---- A run ----------------------------------------------------------------

  /** A drain has taken the first event; the second is in the queue, and its log call has returned. */
  function SecondQueued(s: State): State {
    s.(threads := [Done, DrainWrite([Item(0, 7)]), Done], queue := [Item(1, 8)], scheduled := true,
       history := History(multiset{7, 8}, multiset{}, [7, 8], {}, false))
  }

  lemma Submits(acts: seq<Action>, s: State, t: State) returns (all: seq<Action>)
    requires Leads(acts, true, s) && s == OnePushed(false, true)
    requires t == s.(threads := [Done, Queued(false)], scheduled := true)
    ensures Leads(all, true, t)
  {
    hide Leads, AllUse;
    var s1 := s.(threads := [Submitting], scheduled := true);
    all := Then(acts, true, s, Thread(0, true), s1);
    all := Then(all, true, s1, Thread(0, true), t);
  }

  lemma TakesFirst(acts: seq<Action>, s: State, t: State) returns (all: seq<Action>)
    requires Leads(acts, true, s) && s == OnePushed(false, true)
    requires t == s.(threads := [Done, DrainWrite([Item(0, 7)])], queue := [], scheduled := true)
    ensures Leads(all, true, t)
  {
    hide Leads, AllUse;
    var s1 := s.(threads := [Done, Queued(false)], scheduled := true);
    var s2 := s1.(threads := [Done, DrainTake]);
    all := Submits(acts, s, s1);
    all := Then(all, true, s1, Thread(1, true), s2);
    all := Then(all, true, s2, Thread(1, true), t);
  }

  lemma QueuesSecond(acts: seq<Action>, s: State, t: State) returns (all: seq<Action>)
    requires Leads(acts, true, s) && s.threads == [Done, DrainWrite([Item(0, 7)])] && s.scheduled && s.async
    requires s.queue == [] && s.capacity == 4 && s.history == History(multiset{7}, multiset{}, [7], {}, false)
    requires t == SecondQueued(s)
    ensures Leads(all, true, t)
  {
    hide Leads, AllUse;
    var s1 := s.(threads := s.threads + [Enter(8)], history := s.history.(entered := s.history.entered + multiset{8}));
    var s2 := Push(s1, 2, 8);
    assert s2.threads == [Done, DrainWrite([Item(0, 7)]), Pushed];
    all := Then(acts, true, s, Log(8), s1);
    all := Then(all, true, s1, Thread(2, true), s2);
    all := Then(all, true, s2, Thread(2, true), t);
  }

  /** Flush asks for its acknowledgement ... */
  lemma Requests(acts: seq<Action>, s: State, t: State) returns (all: seq<Action>)
    requires Leads(acts, true, s) && |s.threads| == 3 && s.async && s.pool.live
    requires t == s.(threads := s.threads + [FlushLoop], flushRequested := true)
    ensures Leads(all, true, t)
  {
    hide Leads, AllUse;
    var s1 := s.(threads := s.threads + [FlushStart]);
    var s2 := s.(threads := s.threads + [FlushRequest]);
    assert s1.threads[3 := FlushRequest] == s2.threads && s2.threads[3 := FlushLoop] == t.threads;
    all := Then(acts, true, s, Flush, s1);
    all := Then(all, true, s1, Thread(3, true), s2);
    all := Then(all, true, s2, Thread(3, true), t);
  }

  /** ... the drain writes the first event and acknowledges ... */
  lemma Acknowledges(acts: seq<Action>, s: State, t: State) returns (all: seq<Action>)
    requires Leads(acts, true, s) && s.threads == [Done, DrainWrite([Item(0, 7)]), Done, FlushLoop] && s.written == []
    requires t == s.(threads := [Done, DrainCheck, Done, FlushLoop], written := [Item(0, 7)], flushRequested := false)
    ensures Leads(all, true, t)
  {
    hide Leads, AllUse;
    var s1 := s.(threads := [Done, DrainAck, Done, FlushLoop], written := [Item(0, 7)]);
    all := Then(acts, true, s, Thread(1, true), s1);
    all := Then(all, true, s1, Thread(1, true), t);
  }

  /** ... sees the second and takes it ... */
  lemma TakesSecond(acts: seq<Action>, s: State, t: State) returns (all: seq<Action>)
    requires Leads(acts, true, s) && s.threads == [Done, DrainCheck, Done, FlushLoop] && s.queue == [Item(1, 8)]
    requires t == s.(threads := [Done, DrainWrite([Item(1, 8)]), Done, FlushLoop], queue := [])
    ensures Leads(all, true, t)
  {
    hide Leads, AllUse;
    var s1 := s.(threads := [Done, DrainTake, Done, FlushLoop]);
    all := Then(acts, true, s, Thread(1, true), s1);
    all := Then(all, true, s1, Thread(1, true), t);
  }

  /** ... flush sees its acknowledgement ... */
  lemma Sees(acts: seq<Action>, s: State, t: State) returns (all: seq<Action>)
    requires Leads(acts, true, s) && |s.threads| == 4 && s.threads[3] == FlushLoop && !s.flushRequested
    requires t == s.(threads := s.threads[3 := FlushTake])
    ensures Leads(all, true, t)
  {
    hide Leads, AllUse;
    var s1 := s.(threads := s.threads[3 := FlushAck]);
    assert s1.threads[3 := FlushTake] == t.threads;
    all := Then(acts, true, s, Thread(3, true), s1);
    all := Then(all, true, s1, Thread(3, true), t);
  }

  /** ... finds the queue empty and returns. */
  lemma Returns(acts: seq<Action>, s: State, t: State) returns (all: seq<Action>)
    requires Leads(acts, true, s) && |s.threads| == 4 && s.threads[3] == FlushTake && s.queue == []
    requires t == s.(threads := s.threads[3 := Done])
    ensures Leads(all, true, t)
  {
    hide Leads, AllUse;
    var s1 := s.(threads := s.threads[3 := FlushWrite([])]);
    assert s1.threads[3 := Done] == t.threads && s.written + [] == s.written;
    all := Then(acts, true, s, Thread(3, true), s1);
    all := Then(all, true, s1, Thread(3, true), t);
  }

  /**
    Acknowledged, and yet not written: the second event was logged before flush was called, no wait
    has run out, and when flush returns a drain still holds the event.
   */
  lemma AcknowledgedInFlight() returns (acts: seq<Action>)
    ensures IsRun(INITIAL, acts) && SettledRun(INITIAL, acts)
    ensures
      var t := After(INITIAL, acts);
      && t.threads == [Done, DrainWrite([Item(1, 8)]), Done, Done] && t.written == [Item(0, 7)] && t.queue == []
      && InHands(t, 1) && !Out(t, 1)
  {
    hide Leads;
    var s := OnePushed(false, true);
    var s1 := s.(threads := [Done, DrainWrite([Item(0, 7)])], queue := [], scheduled := true);
    var s2 := SecondQueued(s1);
    var s3 := s2.(threads := s2.threads + [FlushLoop], flushRequested := true);
    var s4 := s3.(threads := [Done, DrainCheck, Done, FlushLoop], written := [Item(0, 7)], flushRequested := false);
    var s5 := s4.(threads := [Done, DrainWrite([Item(1, 8)]), Done, FlushLoop], queue := []);
    var s6 := s5.(threads := s5.threads[3 := FlushTake]);
    var t := s6.(threads := s6.threads[3 := Done]);
    acts := FirstPush(false, true);
    acts := TakesFirst(acts, s, s1);
    acts := QueuesSecond(acts, s1, s2);
    acts := Requests(acts, s2, s3);
    acts := Acknowledges(acts, s3, s4);
    acts := TakesSecond(acts, s4, s5);
    acts := Sees(acts, s5, s6);
    acts := Returns(acts, s6, t);
    LeadsTo(acts, t);
    InHand(t);
  }

  lemma LeadsTo(acts: seq<Action>, t: State)
    requires Leads(acts, true, t)
    ensures IsRun(INITIAL, acts) && SettledRun(INITIAL, acts) && After(INITIAL, acts) == t
  {
  }

  lemma InHand(t: State)
    requires t.threads == [Done, DrainWrite([Item(1, 8)]), Done, Done] && t.written == [Item(0, 7)] &&
      t.history.evicted == {}
    ensures InHands(t, 1) && !Out(t, 1)
  {
    SumUpdate([Done, Done, Done, Done], 1, DrainWrite([Item(1, 8)]), HandOf(1));
    assert [Done, Done, Done, Done][1 := DrainWrite([Item(1, 8)])] == t.threads;
    assert t.written[1..] == [];
  }
}
