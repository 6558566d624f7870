/**
  Which events the overflow policies lose: overrun_oldest the oldest queued one and discard the
  entering one, both only on a full queue; block none.
 */
module LoggerOverrun {
  import opened AsyncLogger
  import opened LoggerFlush

  /** The queue holds the events in the order of their push numbers. */
  predicate Ordered(s: State) {
    && (forall k | 0 <= k < |s.queue| :: 0 <= s.queue[k].n < |s.history.pushed|)
    && (forall j, k | 0 <= j < k < |s.queue| :: s.queue[j].n < s.queue[k].n)
  }

  /** Whatever was evicted is older than everything that is queued. */
  predicate OldestGone(s: State) {
    && Ordered(s)
    && (forall n | n in s.history.evicted :: n < |s.history.pushed|)
    && (forall n, k | n in s.history.evicted && 0 <= k < |s.queue| :: n < s.queue[k].n)
  }

  /** A producer finds the queue full. */
  predicate Overflows(s: State, a: Action) {
    a.Thread? && a.i < |s.threads| && s.threads[a.i].Enter? && s.async && Full(s)
  }

  /** The item has the least number in the queue. */
  predicate IsOldest(queue: seq<Item>, item: Item) {
    item in queue && forall k | 0 <= k < |queue| :: item.n <= queue[k].n
  }

  /** Nothing is lost. */
  predicate NothingLost(s: State, t: State) {
    t.history.dropped == s.history.dropped && t.history.evicted == s.history.evicted
  }

  /** The oldest queued event makes room; every other one stays queued, and the entering one comes last. */
  predicate OldestLost(s: State, t: State, e: Event) {
    exists item | item in s.queue ::
      && IsOldest(s.queue, item)
      && t.history.dropped == s.history.dropped + multiset{item.e}
      && t.history.evicted == s.history.evicted + {item.n}
      && t.queue == Without(s.queue, item) + [Item(|s.history.pushed|, e)]
  }

  /** The queue less its items of that number. */
  function Without(queue: seq<Item>, item: Item): seq<Item> {
    if queue == [] then [] else (if queue[0].n == item.n then [] else [queue[0]]) + Without(queue[1..], item)
  }

  lemma {:induction false} NothingLike(queue: seq<Item>, item: Item)
    requires forall k | 0 <= k < |queue| :: queue[k].n != item.n
    ensures Without(queue, item) == queue
  {
    if queue != [] {
      NothingLike(queue[1..], item);
    }
  }

  lemma HeadIsOldest(s: State)
    requires Ordered(s) && s.queue != []
    ensures IsOldest(s.queue, s.queue[0]) && Without(s.queue, s.queue[0]) == s.queue[1..]
  {
    NothingLike(s.queue[1..], s.queue[0]);
  }

  // ---- What one step loses ---------------------------------------------------

  lemma EnterLoses(s: State, i: nat, e: Event)
    requires Ordered(s) && i < |s.threads| && s.threads[i] == Enter(e)
    ensures
      var t := EnterStep(s, i, e);
      if !(s.async && Full(s)) || s.policy == Block then NothingLost(s, t)
      else if s.policy == Discard then
        && t.history.dropped == s.history.dropped + multiset{e} && t.history.evicted == s.history.evicted
        && t.queue == s.queue
      else OldestLost(s, t, e)
  {
    if s.async && Full(s) && s.policy == OverrunOldest {
      HeadIsOldest(s);
      assert s.queue[0] in s.queue;
    }
  }

  lemma ProducerLoses(s: State, i: nat, yes: bool)
    requires i < |s.threads| && IsProducer(s.threads[i]) && !s.threads[i].Enter?
    ensures NothingLost(s, ProducerStep(s, i, yes))
  {
    hide EnterStep;
  }

  lemma OthersPushNothing(s: State, i: nat, yes: bool)
    requires i < |s.threads| && !IsProducer(s.threads[i])
    ensures NoPush(s, ThreadStep(s, i, yes))
  {
    hide ProducerStep, DrainStep, ClaimStep, FlushStep;
    var pc := s.threads[i];
    if IsDrain(pc) {
      DrainPushesNothing(s, i);
    } else if IsClaim(pc) {
      ClaimPushesNothing(s, i, yes);
    } else if IsFlush(pc) {
      FlushPushesNothing(s, i, yes);
    }
  }

  lemma ControlLoses(s: State)
    ensures NothingLost(s, ControlStep(s))
  {
    hide Dropped;
  }

  /**
    One step loses something only when a producer finds the queue full and the policy is not block:
    under discard its own event, which leaves the queue as it is, under overrun_oldest the oldest of
    the queued ones, and no other.
   */
  lemma StepLoses(s: State, a: Action)
    requires Ordered(s) && Can(s, a)
    ensures
      var t := Step(s, a);
      if !Overflows(s, a) || s.policy == Block then NothingLost(s, t)
      else if s.policy == Discard then
        && t.history.dropped == s.history.dropped + multiset{s.threads[a.i].e}
        && t.history.evicted == s.history.evicted && t.queue == s.queue
      else OldestLost(s, t, s.threads[a.i].e)
  {
    hide EnterStep, ControlStep, OldestLost, Ordered, DrainStep, ClaimStep, FlushStep;
    match a
    case Thread(i, yes) =>
      if s.threads[i].Enter? {
        EnterLoses(s, i, s.threads[i].e);
      } else if IsProducer(s.threads[i]) {
        hide ProducerStep;
        ProducerLoses(s, i, yes);
      } else {
        hide ProducerStep;
        OthersPushNothing(s, i, yes);
      }
    case Controller => ControlLoses(s);
    case _ =>
  }

  // ---- Over all runs ---------------------------------------------------------

  lemma PushKeepsOrder(s: State, i: nat, e: Event)
    requires OldestGone(s) && i < |s.threads|
    ensures OldestGone(Push(s, i, e))
  {
  }

  lemma EvictKeepsOrder(s: State)
    requires OldestGone(s) && Full(s)
    ensures OldestGone(Evict(s)) && Evict(s).threads == s.threads
  {
  }

  lemma EnterKeepsOrder(s: State, i: nat, e: Event)
    requires OldestGone(s) && i < |s.threads|
    ensures OldestGone(EnterStep(s, i, e))
  {
    hide Push, Evict, OldestGone;
    if s.async && !Full(s) {
      PushKeepsOrder(s, i, e);
    } else if s.async && s.policy == OverrunOldest {
      EvictKeepsOrder(s);
      PushKeepsOrder(Evict(s), i, e);
    } else {
      SameOrder(s, EnterStep(s, i, e));
    }
  }

  /** Taking the whole queue, or leaving it, keeps the order. */
  lemma SameOrder(s: State, t: State)
    requires OldestGone(s) && (t.queue == s.queue || t.queue == [])
    requires t.history.pushed == s.history.pushed && t.history.evicted == s.history.evicted
    ensures OldestGone(t)
  {
  }

  lemma ProducerKeepsOrder(s: State, i: nat, yes: bool)
    requires OldestGone(s) && i < |s.threads| && IsProducer(s.threads[i])
    ensures OldestGone(ProducerStep(s, i, yes))
  {
    hide EnterStep, Push, OldestGone;
    var pc := s.threads[i];
    if pc.Enter? {
      EnterKeepsOrder(s, i, pc.e);
    } else if pc.Parked? && s.running && s.async {
      PushKeepsOrder(s, i, pc.e);
    } else {
      SameOrder(s, ProducerStep(s, i, yes));
    }
  }

  lemma OthersKeepOrder(s: State, i: nat, yes: bool)
    requires OldestGone(s) && i < |s.threads| && !IsProducer(s.threads[i])
    ensures OldestGone(ThreadStep(s, i, yes))
  {
    hide OldestGone, ThreadStep;
    OthersPushNothing(s, i, yes);
    SameOrder(s, ThreadStep(s, i, yes));
  }

  lemma StepKeepsOrder(s: State, a: Action)
    requires OldestGone(s) && Can(s, a)
    ensures OldestGone(Step(s, a))
  {
    hide OldestGone, ControlStep, DrainStep, ClaimStep, FlushStep, ProducerStep;
    match a
    case Thread(i, yes) =>
      if IsProducer(s.threads[i]) {
        ProducerKeepsOrder(s, i, yes);
      } else {
        OthersKeepOrder(s, i, yes);
      }
    case Controller =>
      ControlTakes(s);
      ControlPushesNothing(s);
      SameOrder(s, ControlStep(s));
    case _ => SameOrder(s, Step(s, a));
  }

  lemma {:induction false} RunKeepsOrder(s: State, acts: seq<Action>)
    requires OldestGone(s) && IsRun(s, acts)
    ensures OldestGone(After(s, acts))
    decreases |acts|
  {
    hide OldestGone, Step, Can;
    if acts != [] {
      StepKeepsOrder(s, acts[0]);
      RunKeepsOrder(Step(s, acts[0]), acts[1..]);
    }
  }

  /**
    In every state of every run the queue is in push order and every evicted event is older than
    every queued one; and the next step loses what StepLoses says.
   */
  lemma OldestGoesFirst(acts: seq<Action>)
    requires IsRun(INITIAL, acts)
    ensures OldestGone(After(INITIAL, acts))
  {
    assert OldestGone(INITIAL);
    RunKeepsOrder(INITIAL, acts);
  }
}
