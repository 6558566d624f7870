/**
  Flushes beside producers and drains, while the pool accepts: there is never a second drain, and a
  flush that waits for the drain can count on one.
 */
module LoggerDrains {
  import opened AsyncLogger
  import opened LoggerFifo

  // ---- Never a second drain -------------------------------------------------

  /** Has claimed the drain for itself or for a flush, or is it. */
  predicate Drains(pc: Pc) {
    pc.Submitting? || pc.FlushSubmit? || IsDrain(pc)
  }

  /** Nobody writes without the queue, and no pool has refused. */
  predicate Regular(pc: Pc) {
    !pc.Direct? && !pc.Failed? && !pc.FlushFailed?
  }

  predicate AllRegular(threads: seq<Pc>) {
    forall i | 0 <= i < |threads| :: Regular(threads[i])
  }

  predicate OneDrain(threads: seq<Pc>) {
    forall i, j | 0 <= i < |threads| && 0 <= j < |threads| && Drains(threads[i]) && Drains(threads[j]) :: i == j
  }

  predicate HasDrain(threads: seq<Pc>) {
    exists i :: 0 <= i < |threads| && Drains(threads[i])
  }

  predicate Running(s: State) {
    && s.control == Idle && s.async && s.running && s.pool.live
    && AllRegular(s.threads) && OneDrain(s.threads) && (s.scheduled <==> HasDrain(s.threads))
  }

  /** Calls, flushes and drains move, and the pool accepts whatever is submitted. */
  predicate Accepted(s: State, a: Action) {
    || a.Log? || a.Flush?
    || (a.Thread? && a.i < |s.threads| && (s.threads[a.i].Submitting? || s.threads[a.i].FlushSubmit? ==> a.yes))
  }

  predicate AcceptedRun(s: State, acts: seq<Action>)
    decreases |acts|
  {
    acts == [] || (Can(s, acts[0]) && Accepted(s, acts[0]) && AcceptedRun(Step(s, acts[0]), acts[1..]))
  }

  lemma Updates(threads: seq<Pc>, i: nat, pc: Pc)
    requires i < |threads| && AllRegular(threads) && OneDrain(threads) && Regular(pc)
    requires Drains(pc) ==> Drains(threads[i]) || !HasDrain(threads)
    ensures AllRegular(threads[i := pc]) && OneDrain(threads[i := pc])
    ensures HasDrain(threads[i := pc]) <==> Drains(pc) || (HasDrain(threads) && !Drains(threads[i]))
  {
    hide Regular, Drains;
    var after := threads[i := pc];
    if Drains(pc) {
      assert Drains(after[i]);
    } else if HasDrain(threads) && !Drains(threads[i]) {
      var k :| 0 <= k < |threads| && Drains(threads[k]);
      assert Drains(after[k]);
    }
  }

  lemma Appends(threads: seq<Pc>, pc: Pc)
    requires AllRegular(threads) && OneDrain(threads) && Regular(pc)
    requires Drains(pc) ==> !HasDrain(threads)
    ensures AllRegular(threads + [pc]) && OneDrain(threads + [pc])
    ensures HasDrain(threads + [pc]) <==> Drains(pc) || HasDrain(threads)
  {
    hide Regular, Drains;
    var after := threads + [pc];
    assert after[|threads|] == pc;
    if HasDrain(threads) {
      var k :| 0 <= k < |threads| && Drains(threads[k]);
      assert Drains(after[k]);
    }
  }

  lemma Moves(s: State, t: State, i: nat, pc: Pc)
    requires Running(s) && i < |s.threads| && Regular(pc)
    requires t.threads == s.threads[i := pc] && t.pool == s.pool && t.control == s.control
    requires t.async == s.async && t.running == s.running
    requires Drains(pc) ==> Drains(s.threads[i]) || !s.scheduled
    requires t.scheduled <==> Drains(pc) || (s.scheduled && !Drains(s.threads[i]))
    ensures Running(t)
  {
    hide Regular, Drains, AllRegular, OneDrain, HasDrain;
    Updates(s.threads, i, pc);
  }

  lemma DrainIsHeld(s: State, i: nat)
    requires Running(s) && i < |s.threads|
    ensures Drains(s.threads[i]) ==> s.scheduled
    ensures Regular(s.threads[i])
  {
  }

  lemma Submits(s: State, i: nat, accepted: Pc, refused: Pc)
    requires Running(s) && i < |s.threads| && Drains(s.threads[i]) && Regular(accepted) && !Drains(accepted)
    ensures Running(Submit(s, i, accepted, refused, true))
  {
    hide AllRegular, OneDrain, HasDrain;
    DrainIsHeld(s, i);
    Updates(s.threads, i, accepted);
    Appends(s.threads[i := accepted], Queued(s.pool.owns));
  }

  lemma ProducerRuns(s: State, i: nat, yes: bool)
    requires Running(s) && i < |s.threads| && IsProducer(s.threads[i]) && (s.threads[i].Submitting? ==> yes)
    ensures Running(ProducerStep(s, i, yes))
  {
    hide AllRegular, OneDrain, HasDrain, Submit;
    DrainIsHeld(s, i);
    var t := ProducerStep(s, i, yes);
    if s.threads[i].Submitting? {
      Submits(s, i, Done, Failed);
    } else {
      Moves(s, t, i, t.threads[i]);
    }
  }

  lemma DrainRuns(s: State, i: nat)
    requires Running(s) && i < |s.threads| && IsDrain(s.threads[i])
    ensures Running(DrainStep(s, i))
  {
    hide AllRegular, OneDrain, HasDrain;
    DrainIsHeld(s, i);
    var t := DrainStep(s, i);
    Moves(s, t, i, t.threads[i]);
  }

  lemma ClaimRuns(s: State, i: nat, yes: bool)
    requires Running(s) && i < |s.threads| && IsClaim(s.threads[i]) && (s.threads[i].FlushSubmit? ==> yes)
    ensures Running(ClaimStep(s, i, yes))
  {
    hide AllRegular, OneDrain, HasDrain, Submit;
    DrainIsHeld(s, i);
    var t := ClaimStep(s, i, yes);
    if s.threads[i].FlushSubmit? {
      Submits(s, i, FlushLoop, FlushFailed);
    } else {
      Moves(s, t, i, t.threads[i]);
    }
  }

  lemma FlushRuns(s: State, i: nat, yes: bool)
    requires Running(s) && i < |s.threads| && IsFlush(s.threads[i])
    ensures Running(FlushStep(s, i, yes))
  {
    hide AllRegular, OneDrain, HasDrain;
    DrainIsHeld(s, i);
    var t := FlushStep(s, i, yes);
    Moves(s, t, i, t.threads[i]);
  }

  lemma StepRuns(s: State, a: Action)
    requires Running(s) && Can(s, a) && Accepted(s, a)
    ensures Running(Step(s, a))
  {
    hide ProducerStep, DrainStep, ClaimStep, FlushStep, AllRegular, OneDrain, HasDrain;
    if a.Log? {
      Appends(s.threads, Enter(a.e));
    } else if a.Flush? {
      Appends(s.threads, FlushStart);
    } else if IsProducer(s.threads[a.i]) {
      ProducerRuns(s, a.i, a.yes);
    } else if IsDrain(s.threads[a.i]) {
      DrainRuns(s, a.i);
    } else if IsClaim(s.threads[a.i]) {
      ClaimRuns(s, a.i, a.yes);
    } else {
      FlushRuns(s, a.i, a.yes);
    }
  }

  lemma {:induction false} RunRuns(s: State, acts: seq<Action>)
    requires Running(s) && AcceptedRun(s, acts)
    ensures IsRun(s, acts) && Running(After(s, acts))
    decreases |acts|
  {
    hide Running, Step, Can, Accepted;
    if acts != [] {
      StepRuns(s, acts[0]);
      RunRuns(Step(s, acts[0]), acts[1..]);
    }
  }

  lemma QuietRuns(s: State)
    requires Quiet(s)
    ensures Running(s)
  {
  }

  /**
    From a quiet logger, however producers, flushes and drains interleave: no two threads have
    claimed a drain or are one, and the flag is set exactly while somebody has or is.
   */
  lemma OneDrainWithFlushes(s0: State, acts: seq<Action>)
    requires Quiet(s0) && AcceptedRun(s0, acts)
    ensures IsRun(s0, acts)
    ensures
      var s := After(s0, acts);
      OneDrain(s.threads) && (s.scheduled <==> HasDrain(s.threads))
  {
    hide Quiet, AcceptedRun, IsRun, After, OneDrain, HasDrain;
    QuietRuns(s0);
    RunRuns(s0, acts);
  }

  // ---- A waiting flush is served ----------------------------------------------

  /** Only threads move that are under way, and this one never runs out of time. */
  predicate Patient(acts: seq<Action>, i: nat) {
    forall a | a in acts :: a.Thread? && (a.i == i ==> a.yes)
  }

  /** The flush leaves its wait because a drain has acknowledged it. */
  predicate Acknowledged(s: State, i: nat, acts: seq<Action>) {
    && Patient(acts, i) && AcceptedRun(s, acts) && IsRun(s, acts)
    && i < |After(s, acts).threads| && After(s, acts).threads[i] == FlushAck && !After(s, acts).flushRequested
  }

  lemma Then(s: State, k: nat, i: nat, acts: seq<Action>)
    requires Can(s, Thread(k, true)) && Acknowledged(Step(s, Thread(k, true)), i, acts)
    ensures Acknowledged(s, i, [Thread(k, true)] + acts)
  {
    hide Step, Can;
    var all := [Thread(k, true)] + acts;
    assert all[1..] == acts && all[0] == Thread(k, true);
    assert Accepted(s, all[0]) by { StepIsOfThread(s, k); }
  }

  lemma StepIsOfThread(s: State, k: nat)
    requires Can(s, Thread(k, true))
    ensures Accepted(s, Thread(k, true))
  {
  }

  /** The drain has acknowledged; the flush looks and goes on. */
  lemma FlushLooks(s: State, i: nat) returns (acts: seq<Action>)
    requires Running(s) && i < |s.threads| && s.threads[i] == FlushLoop && !s.flushRequested
    ensures Acknowledged(s, i, acts)
  {
    var a := Thread(i, true);
    assert Step(s, a) == Go(s, i, FlushAck);
    assert Acknowledged(Step(s, a), i, []);
    Then(s, i, i, []);
    acts := [a] + [];
  }

  function Far(pc: Pc): nat {
    if pc.Submitting? || pc.FlushSubmit? then 6
    else if pc.Queued? || pc.DrainCheck? then 5
    else if pc.DrainTake? then 4 else if pc.DrainWrite? then 3 else 2
  }

  /** Where a drain or a claim of one gets in one step, as long as the flush is waiting. */
  lemma Nearer(s: State, i: nat, k: nat) returns (t: State, n: nat)
    requires Running(s) && i < |s.threads| && s.threads[i] == FlushLoop && s.flushRequested
    requires k < |s.threads| && Drains(s.threads[k])
    ensures Can(s, Thread(k, true)) && t == Step(s, Thread(k, true)) && i < |t.threads| && t.threads[i] == FlushLoop
    ensures t.flushRequested ==> n < |t.threads| && Drains(t.threads[n]) && Far(t.threads[n]) < Far(s.threads[k])
  {
    t := Step(s, Thread(k, true));
    n := if s.threads[k].Submitting? || s.threads[k].FlushSubmit? then |s.threads| else k;
  }

  lemma {:induction false} DrainServes(s: State, i: nat, k: nat) returns (acts: seq<Action>)
    requires Running(s) && i < |s.threads| && s.threads[i] == FlushLoop && s.flushRequested
    requires k < |s.threads| && Drains(s.threads[k])
    ensures Acknowledged(s, i, acts)
    decreases Far(s.threads[k])
  {
    hide Running, Acknowledged, Step;
    var t, n := Nearer(s, i, k);
    StepIsOfThread(s, k);
    StepRuns(s, Thread(k, true));
    var rest;
    if t.flushRequested {
      rest := DrainServes(t, i, n);
    } else {
      rest := FlushLooks(t, i);
    }
    Then(s, k, i, rest);
    acts := [Thread(k, true)] + rest;
  }

  lemma LoopIsServed(s: State, i: nat) returns (acts: seq<Action>)
    requires Running(s) && i < |s.threads| && s.threads[i] == FlushLoop && s.flushRequested && s.scheduled
    ensures Acknowledged(s, i, acts)
  {
    var k :| 0 <= k < |s.threads| && Drains(s.threads[k]);
    acts := DrainServes(s, i, k);
  }

  /**
    What submit_drain is for: in every state such runs reach, a flush that is about to look for a
    drain can be acknowledged by one, by threads that are under way and without running out of time.
   */
  lemma FlushIsServed(s0: State, before: seq<Action>, i: nat) returns (acts: seq<Action>)
    requires Quiet(s0) && AcceptedRun(s0, before) && IsRun(s0, before)
    requires
      var s := After(s0, before);
      i < |s.threads| && s.threads[i] == FlushClaim && s.flushRequested
    ensures Acknowledged(After(s0, before), i, acts)
  {
    hide Quiet, AcceptedRun, IsRun, After, Running, Acknowledged, Step;
    QuietRuns(s0);
    RunRuns(s0, before);
    acts := ClaimIsServed(After(s0, before), i);
  }

  lemma ClaimIsServed(s: State, i: nat) returns (acts: seq<Action>)
    requires Running(s) && i < |s.threads| && s.threads[i] == FlushClaim && s.flushRequested
    ensures Acknowledged(s, i, acts)
  {
    hide Running, Acknowledged;
    var a := Thread(i, true);
    StepRuns(s, a);
    var t := Step(s, a);
    var rest;
    if s.scheduled {
      rest := LoopIsServed(t, i);
    } else {
      rest := SubmitIsServed(t, i);
    }
    Then(s, i, i, rest);
    acts := [a] + rest;
  }

  lemma SubmitIsServed(s: State, i: nat) returns (acts: seq<Action>)
    requires Running(s) && i < |s.threads| && s.threads[i] == FlushSubmit && s.flushRequested
    ensures Acknowledged(s, i, acts)
  {
    hide Acknowledged;
    var a := Thread(i, true);
    StepRuns(s, a);
    var t := Step(s, a);
    assert t.threads[|s.threads|].Queued?;
    hide Running;
    var rest := DrainServes(t, i, |s.threads|);
    Then(s, i, i, rest);
    acts := [a] + rest;
  }
}
