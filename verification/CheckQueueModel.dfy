/** The check queue as a transition system: each step is one critical section of one thread, or the
    execution of one batch. Thread 0 is the master. */
module CheckQueueModel {
  import opened Arithmetic

  /** A verification and what it will say. */
  datatype Check = Check(id: nat, result: bool)

  /** What the mutex protects. */
  datatype Shared = Shared(queue: seq<Check>, nIdle: int, nTotal: int, fAllOk: bool, nTodo: int, fQuit: bool, nBatchSize: nat)

  /** Where a thread is: outside Loop; at the lock, about to report nNow checks; waiting on its condition
      variable; woken up and waiting for the lock; or executing a batch. */
  datatype Thread = Outside | Entering(nNow: nat, ok: bool) | Sleeping | Woken | Working(batch: seq<Check>, ok: bool)

  /** added: the checks added since the last Wait returned. */
  datatype State = State(shared: Shared, threads: seq<Thread>, added: seq<Check>)

  ghost predicate AllOk(checks: seq<Check>) { forall c | c in checks :: c.result }

  // ---------- The critical sections ----------

  /** Report the previous batch, or join the pool. */
  function Report(s: Shared, nNow: nat, ok: bool): Shared {
    if nNow != 0 then s.(fAllOk := s.fAllOk && ok, nTodo := s.nTodo - nNow) else s.(nTotal := s.nTotal + 1)
  }

  /** How many checks to take at once. */
  function BatchSize(s: Shared): (n: nat)
    requires s.queue != [] && s.nTotal >= 0 && s.nIdle >= 0
    ensures 1 <= n <= |s.queue|
    ensures n == 1 || n <= s.nBatchSize
  {
    var share := |s.queue| / (s.nTotal + s.nIdle + 1);
    ShareFits(|s.queue|, s.nTotal + s.nIdle + 1);
    var n := if share < s.nBatchSize then share else s.nBatchSize;
    if n < 1 then 1 else n
  }

  lemma ShareFits(n: nat, k: nat)
    requires k > 0
    ensures 0 <= n / k <= n
  {
    MulMono(n / k, 1, k);
    MulComm(k, n / k);
  }

  /** The largest number within the batch size that leaves as many for every thread in the pool and for every idle
      one once more, but at least one. */
  lemma BatchSizeIs(s: Shared)
    requires s.queue != [] && s.nTotal >= 0 && s.nIdle >= 0
    ensures var n, k := BatchSize(s), s.nTotal + s.nIdle + 1;
            && (n == 1 || (n <= s.nBatchSize && k * n <= |s.queue|))
            && (n >= s.nBatchSize || k * (n + 1) > |s.queue|)
  {
    var k := s.nTotal + s.nIdle + 1;
    Divided(|s.queue|, k);
    if s.nBatchSize <= |s.queue| / k { MulMono(k, s.nBatchSize, |s.queue| / k); }
    if BatchSize(s) < s.nBatchSize { MulMono(k, |s.queue| / k + 1, BatchSize(s) + 1); }
  }

  lemma Divided(n: nat, k: nat)
    requires k > 0
    ensures k * (n / k) <= n < k * (n / k + 1)
  {
  }

  function Reversed(q: seq<Check>): (r: seq<Check>)
    ensures |r| == |q| && forall i | 0 <= i < |q| :: r[i] == q[|q| - 1 - i]
  {
    seq(|q|, i requires 0 <= i < |q| => q[|q| - 1 - i])
  }

  /** How a critical section ends. */
  datatype Outcome = Returns(result: bool) | Waits | Takes(batch: seq<Check>, ok: bool)

  /** The while loop at the top of Loop, up to the next wait, return or batch. */
  function LoopTop(s: Shared, fMaster: bool): (Shared, Outcome)
    requires s.nTotal >= 0 && s.nIdle >= 0
  {
    if s.queue == [] then
      if (fMaster || s.fQuit) && s.nTodo == 0 then
        (s.(nTotal := s.nTotal - 1, fAllOk := fMaster || s.fAllOk), Returns(s.fAllOk))
      else
        (s.(nIdle := s.nIdle + 1), Waits)
    else
      var n := BatchSize(s);
      (s.(queue := s.queue[..|s.queue| - n]), Takes(Reversed(s.queue[|s.queue| - n..]), s.fAllOk))
  }

  function Pushed(s: Shared, checks: seq<Check>): Shared {
    s.(queue := s.queue + checks, nTodo := s.nTodo + |checks|)
  }

  predicate IsIdle(s: Shared) { s.nTotal == s.nIdle && s.nTodo == 0 && s.fAllOk }

  // ---------- Steps ----------

  /** Start: a worker enters Loop, or the master calls Wait. Run: a thread that can take the lock runs its
      critical section, or a working thread executes its batch. Add: the master adds checks; `wake` is
      the worker that notify_one picks. Spurious: a waiting thread wakes up for no reason. */
  datatype Action = Start(i: nat) | Run(i: nat) | Add(checks: seq<Check>, wake: nat) | Spurious(i: nat)

  predicate Enabled(s: State, a: Action) {
    match a
    case Start(i) => i < |s.threads| && s.threads[i] == Outside
    case Run(i) => i < |s.threads| && s.threads[i] != Outside && s.threads[i] != Sleeping
    case Add(checks, wake) => |s.threads| > 0 && s.threads[0] == Outside
    case Spurious(i) => i < |s.threads| && s.threads[i] == Sleeping
  }

  function Place(o: Outcome): Thread {
    match o
    case Returns(_) => Outside
    case Waits => Sleeping
    case Takes(batch, ok) => Working(batch, ok)
  }

  /** The end of every critical section. */
  function Proceed(s: State, i: nat): State
    requires i < |s.threads| && s.shared.nTotal >= 0 && s.shared.nIdle >= 0
  {
    var (sh, o) := LoopTop(s.shared, i == 0);
    State(sh, s.threads[i := Place(o)], if i == 0 && o.Returns? then [] else s.added)
  }

  /** condMaster.notify_one: only the master ever waits there. */
  function WakeMaster(ts: seq<Thread>): seq<Thread> {
    if |ts| > 0 && ts[0] == Sleeping then ts[0 := Woken] else ts
  }

  function WakeWorkers(ts: seq<Thread>, all: bool, wake: nat): (r: seq<Thread>)
    ensures |r| == |ts|
  {
    seq(|ts|, i requires 0 <= i < |ts| => if ts[i] == Sleeping && i > 0 && (all || i == wake) then Woken else ts[i])
  }

  function Next(s: State, a: Action): State
    requires Inv(s) && Enabled(s, a)
  {
    InvCounts(s);
    match a
    case Start(i) => s.(threads := s.threads[i := Entering(0, true)])
    case Spurious(i) => s.(threads := s.threads[i := Woken])
    case Add(checks, wake) =>
      State(Pushed(s.shared, checks), if checks == [] then s.threads else WakeWorkers(s.threads, |checks| > 1, wake), s.added + checks)
    case Run(i) =>
      match s.threads[i]
      case Working(batch, ok) => s.(threads := s.threads[i := Entering(|batch|, ok && forall c | c in batch :: c.result)])
      case Entering(nNow, ok) =>
        var sh := Report(s.shared, nNow, ok);
        var ts := if nNow != 0 && sh.nTodo == 0 && i != 0 then WakeMaster(s.threads) else s.threads;
        Proceed(State(sh, ts, s.added), i)
      case Woken => Proceed(s.(shared := s.shared.(nIdle := s.shared.nIdle - 1)), i)
  }

  // ---------- The invariant ----------

  /** Checks that a thread has taken and not reported. */
  function HeldBy(t: Thread): nat { if t.Working? then |t.batch| else if t.Entering? then t.nNow else 0 }

  /** A thread in cond.wait, or on its way out of it. */
  function IdleBy(t: Thread): nat { if t.Sleeping? || t.Woken? then 1 else 0 }

  /** A thread that has joined the pool. */
  function InsideBy(t: Thread): nat { if t.Outside? || (t.Entering? && t.nNow == 0) then 0 else 1 }

  function Sum(ts: seq<Thread>, f: Thread -> nat): nat {
    if ts == [] then 0 else Sum(ts[..|ts| - 1], f) + f(ts[|ts| - 1])
  }

  /** What a thread will report, once it has executed what it holds. */
  ghost predicate WillReportOk(t: Thread) { (t.Working? ==> t.ok && AllOk(t.batch)) && (t.Entering? && t.nNow > 0 ==> t.ok) }

  ghost predicate NoneFails(ts: seq<Thread>) { forall i | 0 <= i < |ts| :: WillReportOk(ts[i]) }

  ghost predicate Inv(s: State) {
    var sh, ts := s.shared, s.threads;
    && |ts| > 0 && !sh.fQuit
    && sh.nTodo == |sh.queue| + Sum(ts, HeldBy)
    && sh.nIdle == Sum(ts, IdleBy) && sh.nTotal == Sum(ts, InsideBy)
    && (forall i | 0 <= i < |ts| && ts[i].Working? :: ts[i].batch != [])
    && (AllOk(s.added) <==> sh.fAllOk && AllOk(sh.queue) && NoneFails(ts))
    && sh.nTodo <= |s.added|
    && (ts[0].Sleeping? ==> sh.queue == [] && sh.nTodo > 0)
  }

  lemma InvCounts(s: State)
    requires Inv(s)
    ensures s.shared.nTotal >= 0 && s.shared.nIdle >= 0 && s.shared.nTodo >= 0
    ensures forall i | 0 <= i < |s.threads| && s.threads[i] == Woken :: s.shared.nIdle > 0
  {
    forall i | 0 <= i < |s.threads| && s.threads[i] == Woken ensures s.shared.nIdle > 0 {
      SumAtLeast(s.threads, IdleBy, i);
    }
  }

  lemma {:induction false} SumAtLeast(ts: seq<Thread>, f: Thread -> nat, i: nat)
    requires i < |ts|
    ensures f(ts[i]) <= Sum(ts, f)
  {
    if i < |ts| - 1 { SumAtLeast(ts[..|ts| - 1], f, i); }
  }

  lemma {:induction false} SumUpdate(ts: seq<Thread>, f: Thread -> nat, i: nat, t: Thread)
    requires i < |ts|
    ensures Sum(ts[i := t], f) == Sum(ts, f) - f(ts[i]) + f(t)
  {
    var n := |ts| - 1;
    if i < n {
      assert ts[i := t][..n] == ts[..n][i := t];
      SumUpdate(ts[..n], f, i, t);
    } else {
      assert ts[i := t][..n] == ts[..n];
    }
  }

  lemma {:induction false} SumSame(ts: seq<Thread>, us: seq<Thread>, f: Thread -> nat)
    requires |ts| == |us| && forall i | 0 <= i < |ts| :: f(ts[i]) == f(us[i])
    ensures Sum(ts, f) == Sum(us, f)
  {
    if ts != [] { SumSame(ts[..|ts| - 1], us[..|us| - 1], f); }
  }

  lemma {:induction false} SumPositive(ts: seq<Thread>, f: Thread -> nat) returns (i: nat)
    requires Sum(ts, f) > 0
    ensures i < |ts| && f(ts[i]) > 0
  {
    var n := |ts| - 1;
    if f(ts[n]) > 0 { i := n; } else { i := SumPositive(ts[..n], f); }
  }

  // ---------- Every step keeps the invariant ----------

  /** Thread i has the lock: it holds nothing and does not wait. */
  const ACTIVE := Working([], true)

  ghost predicate MidInv(s: State, i: nat) {
    var sh, ts := s.shared, s.threads;
    && i < |ts| && ts[i] == ACTIVE && !sh.fQuit
    && sh.nTodo == |sh.queue| + Sum(ts, HeldBy)
    && sh.nIdle == Sum(ts, IdleBy) && sh.nTotal == Sum(ts, InsideBy)
    && (forall j | 0 <= j < |ts| && j != i && ts[j].Working? :: ts[j].batch != [])
    && (AllOk(s.added) <==> sh.fAllOk && AllOk(sh.queue) && NoneFails(ts))
    && sh.nTodo <= |s.added|
    && (i != 0 && ts[0].Sleeping? ==> sh.queue == [] && sh.nTodo > 0)
  }

  lemma NoneFailsUpdate(ts: seq<Thread>, i: nat, t: Thread)
    requires i < |ts| && WillReportOk(ts[i])
    ensures NoneFails(ts[i := t]) <==> NoneFails(ts) && WillReportOk(t)
  {
    var us := ts[i := t];
    assert us[i] == t;
    if NoneFails(us) {
      forall j | 0 <= j < |ts| ensures WillReportOk(ts[j]) { assert WillReportOk(us[j]); }
    }
  }

  lemma PutThread(ts: seq<Thread>, i: nat, t: Thread)
    requires i < |ts| && ts[i] == ACTIVE
    ensures Sum(ts[i := t], HeldBy) == Sum(ts, HeldBy) + HeldBy(t)
    ensures Sum(ts[i := t], IdleBy) == Sum(ts, IdleBy) + IdleBy(t)
    ensures Sum(ts[i := t], InsideBy) == Sum(ts, InsideBy) - 1 + InsideBy(t)
    ensures NoneFails(ts[i := t]) <==> NoneFails(ts) && WillReportOk(t)
  {
    SumUpdate(ts, HeldBy, i, t);
    SumUpdate(ts, IdleBy, i, t);
    SumUpdate(ts, InsideBy, i, t);
    NoneFailsUpdate(ts, i, t);
  }

  lemma NothingHeld(ts: seq<Thread>, i: nat)
    requires Sum(ts, HeldBy) == 0 && i < |ts| && ts[i] == ACTIVE
    requires forall j | 0 <= j < |ts| && j != i && ts[j].Working? :: ts[j].batch != []
    ensures NoneFails(ts)
  {
    forall j | 0 <= j < |ts| ensures WillReportOk(ts[j]) { SumAtLeast(ts, HeldBy, j); }
  }

  lemma AllOkSplit(q: seq<Check>, n: nat)
    requires n <= |q|
    ensures AllOk(q) <==> AllOk(q[..|q| - n]) && AllOk(Reversed(q[|q| - n..]))
  {
    var a, b := q[..|q| - n], q[|q| - n..];
    var r := Reversed(b);
    assert q == a + b;
    forall c ensures c in r <==> c in b {
      if c in b {
        var i :| 0 <= i < |b| && b[i] == c;
        assert r[|b| - 1 - i] == c;
      }
    }
  }

  /** The end of a critical section. */
  lemma ProceedKeeps(s: State, i: nat)
    requires MidInv(s, i) && s.shared.nTotal >= 0 && s.shared.nIdle >= 0
    ensures Inv(Proceed(s, i))
  {
    hide BatchSize, Sum, WillReportOk, NoneFails, AllOk, Reversed;
    var sh, ts := s.shared, s.threads;
    var (sh', o) := LoopTop(sh, i == 0);
    PutThread(ts, i, Place(o));
    if sh.queue == [] {
      EmptyIsOk();
      if o.Returns? { NothingHeld(ts, i); }
      WaitingIsOk();
    } else {
      AllOkSplit(sh.queue, BatchSize(sh));
      TakenIsOk(o.batch, o.ok);
    }
  }

  lemma EmptyIsOk()
    ensures AllOk([])
  {
  }

  lemma WaitingIsOk()
    ensures WillReportOk(Sleeping) && WillReportOk(Outside) && WillReportOk(Woken) && WillReportOk(Entering(0, true))
  {
  }

  lemma TakenIsOk(batch: seq<Check>, ok: bool)
    ensures WillReportOk(Working(batch, ok)) <==> ok && AllOk(batch)
  {
  }

  lemma ReportIsOk(n: nat, ok: bool)
    requires n > 0
    ensures WillReportOk(Entering(n, ok)) <==> ok
  {
  }

  /** Nothing is notified before it sleeps: a thread that takes the lock only changes its own place. */
  lemma ProceedIgnores(s: State, i: nat)
    requires i < |s.threads| && s.shared.nTotal >= 0 && s.shared.nIdle >= 0
    ensures Proceed(s, i) == Proceed(s.(threads := s.threads[i := ACTIVE]), i)
  {
    var (sh, o) := LoopTop(s.shared, i == 0);
    assert s.threads[i := ACTIVE][i := Place(o)] == s.threads[i := Place(o)];
  }

  lemma {:induction false} ActivateEntering(s: State, i: nat)
    requires Inv(s) && i < |s.threads| && s.threads[i].Entering?
    ensures var sh := Report(s.shared, s.threads[i].nNow, s.threads[i].ok);
            var ts := if s.threads[i].nNow != 0 && sh.nTodo == 0 && i != 0 then WakeMaster(s.threads) else s.threads;
            MidInv(State(sh, ts[i := ACTIVE], s.added), i)
  {
    hide Sum, WillReportOk, NoneFails, AllOk;
    var t := s.threads[i];
    var sh := Report(s.shared, t.nNow, t.ok);
    Activate(s.threads, i);
    SumAtLeast(s.threads, HeldBy, i);
    if t.nNow != 0 { ReportIsOk(t.nNow, t.ok); } else { JoiningIsOk(t.ok); }
    var us := s.threads[i := ACTIVE];
    if t.nNow != 0 && sh.nTodo == 0 && i != 0 && s.threads[0] == Sleeping {
      WokenIsIdle(us, 0);
      assert WakeMaster(s.threads)[i := ACTIVE] == us[0 := Woken];
    }
  }

  lemma JoiningIsOk(ok: bool)
    ensures WillReportOk(Entering(0, ok))
  {
  }

  lemma Activate(ts: seq<Thread>, i: nat)
    requires i < |ts|
    ensures Sum(ts[i := ACTIVE], HeldBy) == Sum(ts, HeldBy) - HeldBy(ts[i])
    ensures Sum(ts[i := ACTIVE], IdleBy) == Sum(ts, IdleBy) - IdleBy(ts[i])
    ensures Sum(ts[i := ACTIVE], InsideBy) == Sum(ts, InsideBy) - InsideBy(ts[i]) + 1
    ensures NoneFails(ts) <==> NoneFails(ts[i := ACTIVE]) && WillReportOk(ts[i])
  {
    SumUpdate(ts, HeldBy, i, ACTIVE);
    SumUpdate(ts, IdleBy, i, ACTIVE);
    SumUpdate(ts, InsideBy, i, ACTIVE);
    assert ts == ts[i := ACTIVE][i := ts[i]];
    NoneFailsUpdate(ts[i := ACTIVE], i, ts[i]);
  }

  lemma WokenIsIdle(ts: seq<Thread>, i: nat)
    requires i < |ts| && ts[i] == Sleeping
    ensures Sum(ts[i := Woken], HeldBy) == Sum(ts, HeldBy) && Sum(ts[i := Woken], IdleBy) == Sum(ts, IdleBy)
    ensures Sum(ts[i := Woken], InsideBy) == Sum(ts, InsideBy) && (NoneFails(ts[i := Woken]) <==> NoneFails(ts))
  {
    SumUpdate(ts, HeldBy, i, Woken);
    SumUpdate(ts, IdleBy, i, Woken);
    SumUpdate(ts, InsideBy, i, Woken);
    NoneFailsUpdate(ts, i, Woken);
  }

  lemma WorkersWoken(ts: seq<Thread>, all: bool, wake: nat)
    ensures var us := WakeWorkers(ts, all, wake);
            && Sum(us, HeldBy) == Sum(ts, HeldBy) && Sum(us, IdleBy) == Sum(ts, IdleBy) && Sum(us, InsideBy) == Sum(ts, InsideBy)
            && (NoneFails(us) <==> NoneFails(ts))
  {
    var us := WakeWorkers(ts, all, wake);
    SumSame(us, ts, HeldBy);
    SumSame(us, ts, IdleBy);
    SumSame(us, ts, InsideBy);
    forall i | 0 <= i < |ts| ensures WillReportOk(us[i]) <==> WillReportOk(ts[i]) {}
    if NoneFails(us) { forall i | 0 <= i < |ts| ensures WillReportOk(ts[i]) { assert WillReportOk(us[i]); } }
  }

  lemma AllOkAppend(p: seq<Check>, q: seq<Check>)
    ensures AllOk(p + q) <==> AllOk(p) && AllOk(q)
  {
    if AllOk(p + q) {
      forall c | c in p ensures c.result { assert c in p + q; }
      forall c | c in q ensures c.result { assert c in p + q; }
    }
  }

  lemma AddKeeps(s: State, checks: seq<Check>, wake: nat)
    requires Inv(s) && Enabled(s, Add(checks, wake))
    ensures Inv(Next(s, Add(checks, wake)))
  {
    hide Sum, WillReportOk, NoneFails, AllOk;
    AllOkAppend(s.added, checks);
    AllOkAppend(s.shared.queue, checks);
    WorkersWoken(s.threads, |checks| > 1, wake);
    if checks == [] {
      assert s.added + checks == s.added && s.shared.queue + checks == s.shared.queue;
    }
  }

  lemma ExecuteKeeps(s: State, i: nat)
    requires Inv(s) && i < |s.threads| && s.threads[i].Working?
    ensures Inv(Next(s, Run(i)))
  {
    hide Sum, WillReportOk, NoneFails, AllOk;
    var t := s.threads[i];
    var u := Entering(|t.batch|, t.ok && forall c | c in t.batch :: c.result);
    ReportIsOk(|t.batch|, u.ok);
    TakenIsOk(t.batch, t.ok);
    ResultsAre(t.batch);
    Replace(s.threads, i, u);
  }

  lemma ResultsAre(batch: seq<Check>)
    ensures AllOk(batch) <==> forall c | c in batch :: c.result
  {
  }

  lemma Replace(ts: seq<Thread>, i: nat, u: Thread)
    requires i < |ts| && HeldBy(u) == HeldBy(ts[i]) && IdleBy(u) == IdleBy(ts[i]) && InsideBy(u) == InsideBy(ts[i])
    requires WillReportOk(u) <==> WillReportOk(ts[i])
    ensures Sum(ts[i := u], HeldBy) == Sum(ts, HeldBy) && Sum(ts[i := u], IdleBy) == Sum(ts, IdleBy)
    ensures Sum(ts[i := u], InsideBy) == Sum(ts, InsideBy) && (NoneFails(ts[i := u]) <==> NoneFails(ts))
  {
    Activate(ts, i);
    PutThread(ts[i := ACTIVE], i, u);
    assert ts[i := ACTIVE][i := u] == ts[i := u];
  }

  lemma WokenKeeps(s: State, i: nat)
    requires Inv(s) && i < |s.threads| && s.threads[i] == Woken
    ensures Inv(Next(s, Run(i)))
  {
    hide Sum, WillReportOk, NoneFails, AllOk, Proceed;
    InvCounts(s);
    Activate(s.threads, i);
    WaitingIsOk();
    var m := s.(shared := s.shared.(nIdle := s.shared.nIdle - 1));
    ProceedIgnores(m, i);
    ProceedKeeps(m.(threads := s.threads[i := ACTIVE]), i);
  }

  lemma EnteringKeeps(s: State, i: nat)
    requires Inv(s) && i < |s.threads| && s.threads[i].Entering?
    ensures Inv(Next(s, Run(i)))
  {
    hide Sum, WillReportOk, NoneFails, AllOk, Proceed, MidInv;
    InvCounts(s);
    ActivateEntering(s, i);
    var t := s.threads[i];
    var sh := Report(s.shared, t.nNow, t.ok);
    var ts := if t.nNow != 0 && sh.nTodo == 0 && i != 0 then WakeMaster(s.threads) else s.threads;
    ProceedIgnores(State(sh, ts, s.added), i);
    ProceedKeeps(State(sh, ts[i := ACTIVE], s.added), i);
  }

  /** Every step of every thread, whatever the interleaving, keeps the invariant. */
  lemma StepKeeps(s: State, a: Action)
    requires Inv(s) && Enabled(s, a)
    ensures Inv(Next(s, a))
  {
    hide Sum, WillReportOk, NoneFails, AllOk, Proceed;
    match a
    case Start(i) =>
      WaitingIsOk();
      Replace(s.threads, i, Entering(0, true));
    case Spurious(i) =>
      WokenIsIdle(s.threads, i);
    case Add(checks, wake) =>
      AddKeeps(s, checks, wake);
    case Run(i) =>
      if s.threads[i].Working? { ExecuteKeeps(s, i); }
      if s.threads[i].Entering? { EnteringKeeps(s, i); }
      if s.threads[i].Woken? { WokenKeeps(s, i); }
  }
}
