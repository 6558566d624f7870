/**
  The two ways an event does get stranded, and that the conditions of NoneStranded are therefore
  the right ones.
 */
module LoggerStranding {
  import opened AsyncLogger
  import opened LoggerLiveness

  /** Every call has returned, the controller rests, and yet an event waits in the queue. */
  predicate Stranded(s: State) {
    s.control == Idle && (forall i | 0 <= i < |s.threads| :: s.threads[i].Done?) && s.queue != []
  }

  lemma StrandedRests(s: State, acts: seq<Action>)
    requires Stranded(s) && UnderWay(acts) && acts != []
    ensures !IsRun(s, acts)
  {
    assert acts[0] in acts;
  }

  lemma StrandedIsNotServed(s: State)
    requires Stranded(s)
    ensures !Served(s)
  {
    forall acts | UnderWay(acts) && acts != []
      ensures !Empties(s, acts)
    {
      StrandedRests(s, acts);
    }
    assert !Empties(s, []);
  }

  // ---- Two runs ------------------------------------------------------------

  /** A run that ends in t; settled says whether each of its restarts was. */
  ghost predicate Leads(acts: seq<Action>, settled: bool, t: State) {
    IsRun(INITIAL, acts) && After(INITIAL, acts) == t && (settled ==> SettledRun(INITIAL, acts))
  }

  lemma {:induction false} RunOn(s: State, acts: seq<Action>, a: Action)
    requires IsRun(s, acts) && Can(After(s, acts), a)
    ensures IsRun(s, acts + [a]) && After(s, acts + [a]) == Step(After(s, acts), a)
    ensures SettledRun(s, acts) && Settled(After(s, acts), a) ==> SettledRun(s, acts + [a])
    decreases |acts|
  {
    hide Can, Step, Settled;
    if acts == [] {
      assert acts + [a] == [a] && [a][1..] == [];
    } else {
      assert (acts + [a])[0] == acts[0] && (acts + [a])[1..] == acts[1..] + [a];
      RunOn(Step(s, acts[0]), acts[1..], a);
    }
  }

  lemma Then(acts: seq<Action>, settled: bool, s: State, a: Action, t: State) returns (all: seq<Action>)
    requires Leads(acts, settled, s) && Can(s, a) && Step(s, a) == t && (settled ==> Settled(s, a))
    ensures all == acts + [a] && Leads(all, settled, t)
    ensures forall b: bool :: AllUse(acts, b) && Uses(a, b) ==> AllUse(all, b)
  {
    hide Step, Can, Settled, Uses;
    RunOn(INITIAL, acts, a);
    all := acts + [a];
  }

  /** Four steps of the controller bring a pool up. */
  lemma Restart(acts: seq<Action>, settled: bool, s: State, c: Config, t: State) returns (all: seq<Action>)
    requires Leads(acts, settled, s) && s.control == ResetQueue(c)
    requires settled && !s.pool.live ==> Unclaimed(s.threads)
    requires t == s.(queue := [], capacity := if c.size == 0 then 1 else c.size,
                     scheduled := false, flushRequested := false,
                     policy := c.policy, pool := Pool(true, c.owns, c.tracked), running := true, async := true,
                     control := Idle, history := s.history.(lossy := s.history.lossy || c.policy != Block))
    ensures Leads(all, settled, t) && all == acts + [Controller, Controller, Controller, Controller]
    ensures forall b: bool :: AllUse(acts, b) ==> AllUse(all, b)
  {
    hide Leads, AllUse;
    var s1 := Step(s, Controller);
    var s2 := Step(s1, Controller);
    var s3 := Step(s2, Controller);
    all := Then(acts, settled, s, Controller, s1);
    all := Then(all, settled, s1, Controller, s2);
    all := Then(all, settled, s2, Controller, s3);
    all := Then(all, settled, s3, Controller, t);
  }

  /** One producer has pushed its event under a fresh pool. */
  function OnePushed(owns: bool, tracked: bool): State {
    State([Item(0, 7)], 4, Block, true, true, false, false, Pool(true, owns, tracked), Idle, [Pushed], [],
          History(multiset{7}, multiset{}, [7], {}, false))
  }

  lemma NoActions(owns: bool, tracked: bool)
    ensures Leads([], true, INITIAL) && AllUse([], tracked)
  {
  }

  /** A logger that was just enabled for the first time. */
  function Enabled(owns: bool, tracked: bool): State {
    INITIAL.(capacity := 4, pool := Pool(true, owns, tracked), running := true, async := true)
  }

  lemma FirstEnable(owns: bool, tracked: bool) returns (acts: seq<Action>)
    requires owns ==> tracked
    ensures Leads(acts, true, Enabled(owns, tracked)) && AllUse(acts, tracked)
  {
    hide AllUse, Leads;
    NoActions(owns, tracked);
    var c := Config(4, Block, owns, tracked);
    var s := INITIAL.(control := ResetQueue(c));
    acts := Then([], true, INITIAL, Enable(c), s);
    acts := Restart(acts, true, s, c, Enabled(owns, tracked));
  }

  lemma FirstPush(owns: bool, tracked: bool) returns (acts: seq<Action>)
    requires owns ==> tracked
    ensures Leads(acts, true, OnePushed(owns, tracked)) && AllUse(acts, tracked)
  {
    hide AllUse, Leads;
    var s1 := Enabled(owns, tracked);
    var s2 := s1.(threads := [Enter(7)], history := History(multiset{7}, multiset{}, [], {}, false));
    acts := FirstEnable(owns, tracked);
    acts := Then(acts, true, s1, Log(7), s2);
    acts := Then(acts, true, s2, Thread(0, true), OnePushed(owns, tracked));
  }

  /** A pool that does not report what it refuses. */
  lemma RefusalStrands() returns (acts: seq<Action>)
    ensures IsRun(INITIAL, acts) && SettledRun(INITIAL, acts) && AllUse(acts, false) && !Served(After(INITIAL, acts))
  {
    var s := OnePushed(false, false);
    acts := FirstPush(false, false);
    acts := Then(acts, true, s, Thread(0, true), s.(threads := [Submitting], scheduled := true));
    acts := Then(acts, true, s.(threads := [Submitting], scheduled := true), Thread(0, false),
                 s.(threads := [Done], scheduled := true));
    StrandedIsNotServed(After(INITIAL, acts));
  }

  /** The controller shuts down while the producer has pushed but not yet claimed a drain: it stops the pool ... */
  lemma StopPool(acts: seq<Action>, s: State, t: State) returns (all: seq<Action>)
    requires Leads(acts, false, s) && s == OnePushed(true, true)
    requires t == s.(running := false, async := false, pool := Pool(false, true, true), control := FinalTake(Stop))
    ensures Leads(all, false, t) && (AllUse(acts, true) ==> AllUse(all, true))
  {
    hide Leads, AllUse;
    var s0 := s.(control := ClearRunning(Stop));
    var s1 := s.(running := false, control := ClearAsync(Stop));
    var s2 := s1.(async := false, control := Join(Stop));
    assert Dropped(s2.threads) == s2.threads;
    all := Then(acts, false, s, Disable, s0);
    all := Then(all, false, s0, Controller, s1);
    all := Then(all, false, s1, Controller, s2);
    all := Then(all, false, s2, Controller, t);
  }

  /** ... and writes what it finds in the queue. */
  lemma Shutdown(acts: seq<Action>, s: State, t: State) returns (all: seq<Action>)
    requires Leads(acts, false, s) && s == OnePushed(true, true)
    requires t == s.(queue := [], written := [Item(0, 7)], running := false, async := false,
                     pool := Pool(false, true, true))
    ensures Leads(all, false, t) && (AllUse(acts, true) ==> AllUse(all, true))
  {
    hide Leads, AllUse;
    var s3 := s.(running := false, async := false, pool := Pool(false, true, true), control := FinalTake(Stop));
    var s4 := s3.(queue := [], control := FinalWrite(Stop, [Item(0, 7)]));
    var s5 := s4.(written := [Item(0, 7)], control := FinalAck(Stop));
    all := StopPool(acts, s, s3);
    all := Then(all, false, s3, Controller, s4);
    all := Then(all, false, s4, Controller, s5);
    all := Then(all, false, s5, Controller, t);
  }

  /** Having claimed the drain, the producer hands it to the pool that was stopped: nobody will ever run it. */
  lemma Claimed(acts: seq<Action>, s: State, t: State) returns (all: seq<Action>)
    requires Leads(acts, false, s) && s.threads == [Pushed] && !s.scheduled && !s.pool.live
    requires t == s.(threads := [Done], scheduled := true)
    ensures Leads(all, false, t) && (AllUse(acts, true) ==> AllUse(all, true))
  {
    hide Leads, AllUse;
    var s1 := s.(threads := [Submitting], scheduled := true);
    all := Then(acts, false, s, Thread(0, true), s1);
    all := Then(all, false, s1, Thread(0, true), t);
  }

  /** The next event finds the drain claimed. */
  lemma LastPush(acts: seq<Action>, s: State) returns (all: seq<Action>)
    requires Leads(acts, false, s) && s.threads == [Done] && s.scheduled && s.queue == [] && s.async &&
      s.control == Idle
    requires !Stranded(s)
    ensures IsRun(INITIAL, all) && !Served(After(INITIAL, all)) && (AllUse(acts, true) ==> AllUse(all, true))
  {
    var s1 := s.(threads := [Done, Enter(8)], history := s.history.(entered := s.history.entered + multiset{8}));
    var t := Go(Push(s1, 1, 8), 1, Done);
    all := LogsAgain(acts, s, s1, t);
    StrandedIsNotServed(t);
  }

  lemma LogsAgain(acts: seq<Action>, s: State, s1: State, t: State) returns (all: seq<Action>)
    requires Leads(acts, false, s) && s.threads == [Done] && s.scheduled && s.queue == [] && s.async
    requires s1 == s.(threads := [Done, Enter(8)], history := s.history.(entered := s.history.entered + multiset{8}))
    requires t == Go(Push(s1, 1, 8), 1, Done)
    ensures Leads(all, false, t) && (AllUse(acts, true) ==> AllUse(all, true))
  {
    hide Leads, AllUse;
    var s2 := Push(s1, 1, 8);
    assert s.threads + [Enter(8)] == s1.threads;
    all := Then(acts, false, s, Log(8), s1);
    all := Then(all, false, s1, Thread(1, true), s2);
    all := Then(all, false, s2, Thread(1, true), t);
  }

  /** The rest of the restart. */
  lemma Resume(acts: seq<Action>, s: State, c: Config, t: State) returns (all: seq<Action>)
    requires Leads(acts, false, s) && s.control == StartPool(c)
    requires t == s.(policy := c.policy, pool := Pool(true, c.owns, c.tracked), running := true, async := true,
                     control := Idle, history := s.history.(lossy := s.history.lossy || c.policy != Block))
    ensures Leads(all, false, t) && (AllUse(acts, true) ==> AllUse(all, true))
  {
    hide Leads, AllUse;
    var s1 := Step(s, Controller);
    var s2 := Step(s1, Controller);
    all := Then(acts, false, s, Controller, s1);
    all := Then(all, false, s1, Controller, s2);
    all := Then(all, false, s2, Controller, t);
  }

  lemma Unsettle(acts: seq<Action>, s: State)
    requires Leads(acts, true, s)
    ensures Leads(acts, false, s)
  {
  }

  /** A stopped pool replaced under a producer that is between push and submit. */
  lemma RestartStrands() returns (acts: seq<Action>)
    ensures IsRun(INITIAL, acts) && AllUse(acts, true) && !Served(After(INITIAL, acts))
  {
    hide Leads, Served, IsRun, After;
    var c := Config(4, Block, true, true);
    var s := OnePushed(true, true);
    var s0 := s.(queue := [], written := [Item(0, 7)], running := false, async := false,
                 pool := Pool(false, true, true));
    var s1 := s0.(control := ResetQueue(c));
    var s2 := s0.(control := StartPool(c));
    var s3 := s2.(threads := [Done], scheduled := true);
    var s4 := s3.(pool := Pool(true, true, true), running := true, async := true, control := Idle);
    acts := FirstPush(true, true);
    Unsettle(acts, s);
    acts := Shutdown(acts, s, s0);
    acts := Then(acts, false, s0, Enable(c), s1);
    acts := Then(acts, false, s1, Controller, s2);
    acts := Claimed(acts, s2, s3);
    acts := Resume(acts, s3, c, s4);
    acts := LastPush(acts, s4);
  }

  // ---- Exactly these two ---------------------------------------------------

  /** Under pools that all report refusals or all do not, and restarts that are or may not be settled. */
  ghost predicate NeverStrands(tracked: bool, settled: bool) {
    forall acts :: IsRun(INITIAL, acts) && AllUse(acts, tracked) && (settled ==> SettledRun(INITIAL, acts)) ==>
      Served(After(INITIAL, acts))
  }

  lemma StrandsExactlyWhen(tracked: bool, settled: bool)
    ensures NeverStrands(tracked, settled) <==> tracked && settled
  {
    hide Served, SettledRun, IsRun, After, AllUse;
    if tracked && settled {
      forall acts | IsRun(INITIAL, acts) && AllUse(acts, tracked) && SettledRun(INITIAL, acts)
        ensures Served(After(INITIAL, acts))
      {
        NoneStranded(acts);
      }
    } else if tracked {
      var acts := RestartStrands();
      assert !Served(After(INITIAL, acts));
    } else {
      var acts := RefusalStrands();
      assert !Served(After(INITIAL, acts));
    }
  }
}
