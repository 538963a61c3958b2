/** CCheckQueue: its fields, and its critical sections as methods. Between two of them other threads run,
    so a thread's loop is not one method here; CheckQueueModel interleaves the sections. */
module CheckQueue {
  import opened CheckQueueModel

  class CheckQueue {
    var queue: seq<Check>
    var nIdle: int
    var nTotal: int
    var fAllOk: bool
    var nTodo: int
    var fQuit: bool
    const nBatchSize: nat

    function S(): Shared
      reads this
    {
      Shared(queue, nIdle, nTotal, fAllOk, nTodo, fQuit, nBatchSize)
    }

    constructor (nBatchSizeIn: nat)
      ensures S() == Shared([], 0, 0, true, 0, false, nBatchSizeIn)
    {
      queue, nIdle, nTotal, fAllOk, nTodo, fQuit := [], 0, 0, true, 0, false;
      nBatchSize := nBatchSizeIn;
    }

    /** The clean-up of the previous round, or joining the pool; whether the master is notified. */
    method Report(fMaster: bool, nNow: nat, fOk: bool) returns (notifyMaster: bool)
      modifies this
      ensures S() == CheckQueueModel.Report(old(S()), nNow, fOk)
      ensures notifyMaster <==> nNow != 0 && nTodo == 0 && !fMaster
    {
      notifyMaster := false;
      if nNow != 0 {
        fAllOk := fAllOk && fOk;
        nTodo := nTodo - nNow;
        if nTodo == 0 && !fMaster { notifyMaster := true; }
      } else {
        nTotal := nTotal + 1;
      }
    }

    /** One round of the while loop and, if there is work, the batch taken from the back of the queue.
        After a wait, the caller comes back through AfterWait. */
    method Top(fMaster: bool) returns (o: Outcome)
      requires nTotal >= 0 && nIdle >= 0
      modifies this
      ensures (S(), o) == LoopTop(old(S()), fMaster)
    {
      if queue == [] {
        if (fMaster || fQuit) && nTodo == 0 {
          nTotal := nTotal - 1;
          var fRet := fAllOk;
          if fMaster { fAllOk := true; }
          return Returns(fRet);
        }
        nIdle := nIdle + 1;
        return Waits;
      }
      ShareFits(|queue|, nTotal + nIdle + 1);
      var share := |queue| / (nTotal + nIdle + 1);
      var nNow := if share < nBatchSize then share else nBatchSize;
      if nNow < 1 { nNow := 1; }
      var vChecks := TakeBatch(nNow);
      o := Takes(vChecks, fAllOk);
    }

    /** Checks are taken from the back of the queue. */
    method TakeBatch(nNow: nat) returns (vChecks: seq<Check>)
      requires nNow <= |queue|
      modifies this`queue
      ensures queue == old(queue)[..|old(queue)| - nNow] && vChecks == Reversed(old(queue)[|old(queue)| - nNow..])
    {
      ghost var q := queue;
      vChecks := [];
      for i := 0 to nNow
        invariant queue == q[..|q| - i] && vChecks == Reversed(q[|q| - i..])
      {
        vChecks := vChecks + [queue[|queue| - 1]];
        queue := queue[..|queue| - 1];
      }
    }

    /** A whole critical section: from taking the lock to the wait, the return or the batch. */
    method Enter(fMaster: bool, nNow: nat, fOk: bool) returns (notifyMaster: bool, o: Outcome)
      requires nTotal >= 0 && nIdle >= 0
      modifies this
      ensures (S(), o) == LoopTop(CheckQueueModel.Report(old(S()), nNow, fOk), fMaster)
      ensures notifyMaster <==> nNow != 0 && old(nTodo) == nNow && !fMaster
    {
      notifyMaster := Report(fMaster, nNow, fOk);
      o := Top(fMaster);
    }

    /** What follows cond.wait. */
    method AfterWait(fMaster: bool) returns (o: Outcome)
      requires nTotal >= 0 && nIdle > 0
      modifies this
      ensures (S(), o) == LoopTop(old(S()).(nIdle := old(nIdle) - 1), fMaster)
    {
      nIdle := nIdle - 1;
      o := Top(fMaster);
    }

    /** The work outside the lock: checks are skipped once one has failed. */
    method Execute(vChecks: seq<Check>, fOk0: bool) returns (fOk: bool)
      ensures fOk <==> fOk0 && forall c | c in vChecks :: c.result
    {
      fOk := fOk0;
      for i := 0 to |vChecks|
        invariant fOk <==> fOk0 && forall c | c in vChecks[..i] :: c.result
      {
        assert vChecks[..i + 1] == vChecks[..i] + [vChecks[i]];
        if fOk { fOk := vChecks[i].result; }
      }
      assert vChecks[..|vChecks|] == vChecks;
    }

    /** Add; how many workers are notified. */
    method Add(vChecks: seq<Check>) returns (one: bool, all: bool)
      modifies this
      ensures S() == Pushed(old(S()), vChecks)
      ensures queue == old(queue) + vChecks && nTodo == old(nTodo) + |vChecks|
      ensures one == (|vChecks| == 1) && all == (|vChecks| > 1)
    {
      for i := 0 to |vChecks|
        invariant queue == old(queue) + vChecks[..i]
        invariant nTotal == old(nTotal) && nIdle == old(nIdle) && nTodo == old(nTodo) && fAllOk == old(fAllOk) && fQuit == old(fQuit)
      {
        queue := queue + [vChecks[i]];
      }
      assert vChecks[..|vChecks|] == vChecks;
      nTodo := nTodo + |vChecks|;
      one, all := |vChecks| == 1, |vChecks| > 1;
    }

    method IsIdle() returns (idle: bool)
      ensures idle <==> CheckQueueModel.IsIdle(S())
    {
      idle := nTotal == nIdle && nTodo == 0 && fAllOk;
    }
  }
}
