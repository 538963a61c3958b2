/** What the check queue promises over whole runs. */
module CheckQueueTheorems {
  import opened CheckQueueModel

  /** A new queue; no thread has entered it. */
  ghost predicate Init(s: State) {
    && |s.threads| > 0 && s.added == [] && (forall i | 0 <= i < |s.threads| :: s.threads[i] == Outside)
    && s.shared == Shared([], 0, 0, true, 0, false, s.shared.nBatchSize)
  }

  lemma {:induction false} NobodyInside(ts: seq<Thread>, f: Thread -> nat)
    requires f(Outside) == 0 && forall i | 0 <= i < |ts| :: ts[i] == Outside
    ensures Sum(ts, f) == 0
  {
    if ts != [] { NobodyInside(ts[..|ts| - 1], f); }
  }

  lemma InitKeeps(s: State)
    requires Init(s)
    ensures Inv(s)
  {
    NobodyInside(s.threads, HeldBy);
    NobodyInside(s.threads, IdleBy);
    NobodyInside(s.threads, InsideBy);
  }

  /** A run of the whole system, in any interleaving. */
  ghost predicate Trace(states: seq<State>, actions: seq<Action>) {
    && |states| == |actions| + 1 && Init(states[0])
    && forall k | 0 <= k < |actions| :: Inv(states[k]) ==> Enabled(states[k], actions[k]) && states[k + 1] == Next(states[k], actions[k])
  }

  lemma {:induction false} TraceKeeps(states: seq<State>, actions: seq<Action>, k: nat)
    requires Trace(states, actions) && k < |states|
    ensures Inv(states[k])
  {
    hide Inv;
    if k == 0 {
      InitKeeps(states[0]);
    } else {
      TraceKeeps(states, actions, k - 1);
      StepKeeps(states[k - 1], actions[k - 1]);
    }
  }

  // ---------- Wait ----------

  /** How the critical section of a thread that can take the lock ends. */
  function OutcomeOf(s: State, i: nat): Outcome
    requires Inv(s) && i < |s.threads| && (s.threads[i].Entering? || s.threads[i].Woken?)
  {
    InvCounts(s);
    var t := s.threads[i];
    if t.Woken? then LoopTop(s.shared.(nIdle := s.shared.nIdle - 1), i == 0).1
    else LoopTop(Report(s.shared, t.nNow, t.ok), i == 0).1
  }

  /** The checks added since the last time the master's Wait returned, going by the run alone. */
  ghost function AddedSince(states: seq<State>, actions: seq<Action>, k: nat): seq<Check>
    requires k <= |actions| && |states| == |actions| + 1
  {
    if k == 0 then []
    else
      match actions[k - 1]
      case Add(checks, _) => AddedSince(states, actions, k - 1) + checks
      case Run(i) =>
        if i == 0 && |states[k - 1].threads| > 0 && states[k - 1].threads[0] != Outside
           && |states[k].threads| > 0 && states[k].threads[0] == Outside then []
        else AddedSince(states, actions, k - 1)
      case _ => AddedSince(states, actions, k - 1)
  }

  lemma {:induction false} AddedIs(states: seq<State>, actions: seq<Action>, k: nat)
    requires Trace(states, actions) && k <= |actions|
    ensures states[k].added == AddedSince(states, actions, k)
  {
    hide Inv;
    if k > 0 {
      AddedIs(states, actions, k - 1);
      TraceKeeps(states, actions, k - 1);
      AddedStep(states[k - 1], actions[k - 1]);
    }
  }

  lemma AddedStep(s: State, a: Action)
    requires Inv(s) && Enabled(s, a)
    ensures |s.threads| > 0 && |Next(s, a).threads| == |s.threads|
    ensures Next(s, a).added ==
            if a.Add? then s.added + a.checks
            else if a == Run(0) && Next(s, a).threads[0] == Outside then []
            else s.added
  {
    hide Sum, WillReportOk, NoneFails, AllOk;
    InvCounts(s);
  }

  /** When the master's Wait returns, the result is the conjunction of all checks added since the previous
      Wait returned; every one of them has been taken and reported, and nothing is left over. */
  lemma WaitReturns(s: State)
    requires Inv(s) && (s.threads[0].Entering? || s.threads[0].Woken?) && OutcomeOf(s, 0).Returns?
    ensures OutcomeOf(s, 0).result <==> AllOk(s.added)
    ensures s.shared.queue == [] && forall i | 0 <= i < |s.threads| && i > 0 :: HeldBy(s.threads[i]) == 0
    ensures Next(s, Run(0)).threads[0] == Outside && Next(s, Run(0)).added == []
  {
    hide Sum, WillReportOk, NoneFails, AllOk, BatchSize;
    InvCounts(s);
    EmptyIsOk();
    var t := s.threads[0];
    SumAtLeast(s.threads, HeldBy, 0);
    forall i | 0 < i < |s.threads| ensures HeldBy(s.threads[i]) == 0 { TwoHold(s.threads, 0, i); }
    Settled(s);
  }

  lemma {:induction false} TwoHold(ts: seq<Thread>, i: nat, j: nat)
    requires i < j < |ts|
    ensures HeldBy(ts[i]) + HeldBy(ts[j]) <= Sum(ts, HeldBy)
  {
    if j < |ts| - 1 {
      TwoHold(ts[..|ts| - 1], i, j);
    } else {
      SumAtLeast(ts[..j], HeldBy, i);
    }
  }

  lemma Settled(s: State)
    requires Inv(s) && !s.threads[0].Working? && forall i | 0 < i < |s.threads| :: HeldBy(s.threads[i]) == 0
    requires s.shared.queue == []
    ensures AllOk(s.added) <==> if s.threads[0].Entering? && s.threads[0].nNow > 0 then s.shared.fAllOk && s.threads[0].ok else s.shared.fAllOk
  {
    forall i | 0 < i < |s.threads| ensures WillReportOk(s.threads[i]) {}
    assert NoneFails(s.threads) <==> WillReportOk(s.threads[0]);
  }

  /** The same for a whole run. */
  lemma WaitIsConjunction(states: seq<State>, actions: seq<Action>, k: nat)
    requires Trace(states, actions) && k < |actions| && actions[k] == Run(0) && Inv(states[k])
    requires (states[k].threads[0].Entering? || states[k].threads[0].Woken?) && OutcomeOf(states[k], 0).Returns?
    ensures OutcomeOf(states[k], 0).result <==> AllOk(AddedSince(states, actions, k))
  {
    hide AllOk, Sum, NoneFails;
    AddedIs(states, actions, k);
    WaitReturns(states[k]);
  }

  /** Between a Wait and the next Add the queue counts as idle, so the next controller may take it. */
  lemma IdleAfterWait(s: State)
    requires Inv(s) && s.threads[0] == Outside && s.added == []
    ensures IsIdle(s.shared)
  {
    hide WillReportOk, NoneFails;
    EmptyIsOk();
    forall i | 0 <= i < |s.threads| ensures IdleBy(s.threads[i]) == InsideBy(s.threads[i]) { SumAtLeast(s.threads, HeldBy, i); }
    SameSums(s.threads);
  }

  /** The queue counts as idle exactly if nothing is queued, held or to be reported and no check that was added since
      the last Wait has failed. */
  lemma IdleIff(s: State)
    requires Inv(s)
    ensures IsIdle(s.shared) <==>
              s.shared.queue == [] && (forall i | 0 <= i < |s.threads| :: HeldBy(s.threads[i]) == 0) && forall c | c in s.added :: c.result
  {
    hide Inv;
    InvIs(s);
    if s.shared.nTodo == 0 {
      forall i | 0 <= i < |s.threads| ensures HeldBy(s.threads[i]) == 0 { SumAtLeast(s.threads, HeldBy, i); }
    }
    if s.shared.queue == [] && forall i | 0 <= i < |s.threads| :: HeldBy(s.threads[i]) == 0 {
      NothingSums(s.threads);
      SameSums(s.threads);
    }
  }

  lemma InvIs(s: State)
    requires Inv(s)
    ensures var sh, ts := s.shared, s.threads;
            && sh.nTodo == |sh.queue| + Sum(ts, HeldBy) && sh.nIdle == Sum(ts, IdleBy) && sh.nTotal == Sum(ts, InsideBy)
            && (forall i | 0 <= i < |ts| && ts[i].Working? :: ts[i].batch != [])
            && (AllOk(s.added) <==> sh.fAllOk && AllOk(sh.queue) && NoneFails(ts))
  {
  }

  lemma {:induction false} NothingSums(ts: seq<Thread>)
    requires forall i | 0 <= i < |ts| :: HeldBy(ts[i]) == 0
    ensures Sum(ts, HeldBy) == 0
  {
    if ts != [] { NothingSums(ts[..|ts| - 1]); }
  }

  /** Adding checks wakes workers that wait, and nobody else: all of them for more than one check, the one that
      notify_one picks for a single check, and none for none. */
  lemma AddWakes(s: State, checks: seq<Check>, wake: nat)
    requires Inv(s) && Enabled(s, Add(checks, wake))
    ensures var ts := Next(s, Add(checks, wake)).threads;
            && |ts| == |s.threads|
            && (forall i | 0 <= i < |ts| :: ts[i] == s.threads[i] || (i > 0 && s.threads[i] == Sleeping && ts[i] == Woken))
            && (|checks| > 1 ==> forall i | 0 < i < |ts| :: ts[i] != Sleeping)
            && (|checks| == 1 ==> (0 < wake < |ts| ==> ts[wake] != Sleeping) && forall i | 0 <= i < |ts| && i != wake :: ts[i] == s.threads[i])
            && (checks == [] ==> ts == s.threads)
  {
    hide Inv;
  }

  lemma {:induction false} SameSums(ts: seq<Thread>)
    requires forall i | 0 <= i < |ts| :: IdleBy(ts[i]) == InsideBy(ts[i])
    ensures Sum(ts, IdleBy) == Sum(ts, InsideBy)
  {
    if ts != [] { SameSums(ts[..|ts| - 1]); }
  }

  // ---------- Progress ----------

  /** While the master sleeps, some worker holds unfinished work. */
  lemma SleepingMasterIsServed(s: State) returns (i: nat)
    requires Inv(s) && s.threads[0].Sleeping?
    ensures 0 < i < |s.threads| && HeldBy(s.threads[i]) > 0 && Enabled(s, Run(i))
  {
    i := SumPositive(s.threads, HeldBy);
  }

  /** Until Wait returns, some thread can run. */
  lemma NotStuck(s: State)
    requires Inv(s) && s.threads[0] != Outside
    ensures exists i :: Enabled(s, Run(i))
  {
    if s.threads[0].Sleeping? {
      var i := SleepingMasterIsServed(s);
    } else {
      assert Enabled(s, Run(0));
    }
  }

  function Weight(t: Thread): nat {
    match t
    case Outside => 3
    case Sleeping => 0
    case Woken => 1
    case Entering(_, _) => 2
    case Working(_, _) => 3
  }

  /** What is left to do. */
  function Measure(s: State): nat { 4 * |s.shared.queue| + Sum(s.threads, Weight) }

  /** Every step of a thread leaves less to do or ends the Wait, so no thread can keep the others from finishing. */
  lemma RunDecreases(s: State, i: nat)
    requires Inv(s) && Enabled(s, Run(i))
    ensures |Next(s, Run(i)).threads| > 0 && Measure(s) > 0
    ensures Next(s, Run(i)).threads[0] == Outside || Measure(Next(s, Run(i))) < Measure(s)
  {
    hide Sum, WillReportOk, NoneFails, AllOk;
    InvCounts(s);
    var t := s.threads[i];
    SumAtLeast(s.threads, HeldBy, i);
    SumAtLeast(s.threads, Weight, i);
    var u := Next(s, Run(i)).threads[i];
    SumUpdate(s.threads, Weight, i, u);
    if t.Entering? {
      var sh := Report(s.shared, t.nNow, t.ok);
      if t.nNow != 0 && sh.nTodo == 0 && i != 0 && s.threads[0] == Sleeping {
        SumUpdate(s.threads, Weight, 0, Woken);
        SumUpdate(s.threads[0 := Woken], Weight, i, u);
      }
    }
  }

  /** So does a worker that enters the pool meanwhile; a spurious wake-up makes up to one more step. */
  lemma OtherStepsDecrease(s: State, a: Action)
    requires Inv(s) && Enabled(s, a) && (a.Start? || a.Spurious?)
    ensures Measure(Next(s, a)) < Measure(s) + if a.Spurious? then 2 else 0
  {
    SumUpdate(s.threads, Weight, a.i, Next(s, a).threads[a.i]);
  }

  /** A schedule: which enabled step comes next, k steps before the end and with `spurious` wake-ups
      for no reason still to come. Anything may happen next, but those wake-ups are finitely many. */
  type Schedule = (State, nat, nat) -> Action

  ghost predicate Possible(pick: Schedule) {
    forall t, k, spurious | Inv(t) && t.threads[0] != Outside ::
      Enabled(t, pick(t, k, spurious)) && (pick(t, k, spurious).Spurious? ==> spurious > 0)
  }

  function Left(a: Action, spurious: nat): nat
    requires a.Spurious? ==> spurious > 0
  {
    if a.Spurious? then spurious - 1 else spurious
  }

  /** The state when Wait has returned, or after k steps. */
  ghost function After(s: State, pick: Schedule, k: nat, spurious: nat): (t: State)
    requires Inv(s) && Possible(pick)
    ensures Inv(t)
    decreases k
  {
    if k == 0 || s.threads[0] == Outside then s
    else
      var a := pick(s, k, spurious);
      StepKeeps(s, a);
      After(Next(s, a), pick, k - 1, Left(a, spurious))
  }

  lemma HasMaster(s: State)
    requires Inv(s)
    ensures |s.threads| > 0
  {
  }

  /** Wait always returns, whatever runs next each time: no deadlock and no livelock. */
  lemma {:induction false} WaitTerminates(s: State, pick: Schedule, k: nat, spurious: nat)
    requires Inv(s) && Possible(pick) && k >= Measure(s) + 2 * spurious
    ensures |After(s, pick, k, spurious).threads| > 0 && After(s, pick, k, spurious).threads[0] == Outside
    decreases k
  {
    hide Inv, Measure, Possible;
    HasMaster(s);
    HasMaster(After(s, pick, k, spurious));
    if s.threads[0] != Outside {
      var a := pick(s, k, spurious);
      Picks(s, pick, k, spurious);
      StepKeeps(s, a);
      if a.Run? { RunDecreases(s, a.i); } else { OtherStepsDecrease(s, a); }
      HasMaster(Next(s, a));
      if Next(s, a).threads[0] != Outside {
        WaitTerminates(Next(s, a), pick, k - 1, Left(a, spurious));
      } else {
        assert After(Next(s, a), pick, k - 1, Left(a, spurious)) == Next(s, a);
      }
    }
  }

  lemma Picks(s: State, pick: Schedule, k: nat, spurious: nat)
    requires Inv(s) && Possible(pick) && s.threads[0] != Outside
    ensures var a := pick(s, k, spurious);
            Enabled(s, a) && !a.Add? && (a.Spurious? ==> spurious > 0)
  {
  }
}
