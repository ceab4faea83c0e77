/**
 The parallel check queue (core/src/checkqueue.h).  One master adds checks and
 then waits; any number of workers take batches.  Everything a thread does under
 the mutex is one atomic step; between two such steps it works on its own batch
 or sleeps on a condition variable.  A check is what its call returns.
 */
module CheckQueue {
  import opened Arithmetic

  type Check = bool

  function AllTrue(checks: seq<Check>): bool {
    forall i :: 0 <= i < |checks| ==> checks[i]
  }

  /** What the mutex protects. */
  datatype Shared = Shared(queue: seq<Check>, nIdle: int, nTotal: int, fAllOk: bool, nTodo: int, fQuit: bool, nBatchSize: nat)

  /** Where a thread is between two critical sections. */
  datatype Phase =
    | Outside                                      // not in the loop
    | Working(batch: seq<Check>, done: nat, ok: bool)  // executing its batch, without the mutex
    | Waiting                                      // asleep on its condition variable
    | Woken                                        // notified, not yet back in the mutex
    | Returned(result: bool)                       // left the loop with a result

  /** How many checks the next batch holds; the counters are never negative (`Counted`). */
  function BatchSize(s: Shared): int
  {
    var threads := s.nTotal + s.nIdle + 1;
    var share := if threads == 0 then 0 else |s.queue| / threads;
    var capped := if s.nBatchSize < share then s.nBatchSize else share;
    if capped < 1 then 1 else capped
  }

  lemma BatchFits(s: Shared)
    requires s.queue != []
    ensures 1 <= BatchSize(s) <= |s.queue|
    ensures BatchSize(s) <= s.nBatchSize || BatchSize(s) == 1
  {
    var threads := s.nTotal + s.nIdle + 1;
    if threads > 0 { ShareFits(|s.queue|, threads); }
  }

  lemma ShareFits(n: nat, d: int)
    requires d > 0
    ensures 0 <= n / d <= n
  {
    MulGrows(d, n / d);
  }

  /** The batch is the largest within the configured size of which every thread could have one, and at least one check. */
  lemma BatchIsLargest(s: Shared, m: nat)
    requires s.nTotal >= 0 && s.nIdle >= 0
    ensures var n, threads := BatchSize(s), s.nTotal + s.nIdle + 1;
      && (n == 1 || (n <= s.nBatchSize && n * threads <= |s.queue|))
      && (m > n ==> m > s.nBatchSize || m * threads > |s.queue|)
  {
    var threads := s.nTotal + s.nIdle + 1;
    FitsQuotient(|s.queue|, threads, m);
    FitsQuotient(|s.queue|, threads, BatchSize(s));
  }

  /** The last `n` checks, last first. */
  function Taken(queue: seq<Check>, n: int): (r: seq<Check>)
    requires 0 <= n <= |queue|
    ensures |r| == n && forall i :: 0 <= i < n ==> r[i] == queue[|queue| - 1 - i]
  {
    seq(n, i requires 0 <= i < n => queue[|queue| - 1 - i])
  }

  /** From the head of the inner loop to the end of the critical section. */
  function Section(s: Shared, master: bool): (Shared, Phase)
  {
    if s.queue == [] then
      if (master || s.fQuit) && s.nTodo == 0 then
        (s.(nTotal := s.nTotal - 1, fAllOk := if master then true else s.fAllOk), Returned(s.fAllOk))
      else (s.(nIdle := s.nIdle + 1), Waiting)
    else
      BatchFits(s);
      var n := BatchSize(s);
      (s.(queue := s.queue[..|s.queue| - n]), Working(Taken(s.queue, n), 0, s.fAllOk))
  }

  /** What a thread finds: work, which it takes from the end of the queue, the end of its loop, or nothing. */
  lemma SectionMeans(s: Shared, master: bool)
    ensures var (u, next) := Section(s, master);
      && (next.Working? <==> s.queue != [])
      && (next.Returned? <==> s.queue == [] && s.nTodo == 0 && (master || s.fQuit))
      && (next.Waiting? <==> s.queue == [] && !next.Returned?)
      && (next.Working? ==>
            && u == s.(queue := u.queue) && next.done == 0 && next.ok == s.fAllOk
            && u.queue <= s.queue && |u.queue| + |next.batch| == |s.queue|
            && forall i :: 0 <= i < |next.batch| ==> next.batch[i] == s.queue[|s.queue| - 1 - i])
      && (next.Returned? ==> u == s.(nTotal := s.nTotal - 1, fAllOk := s.fAllOk || master) && next.result == s.fAllOk)
      && (next.Waiting? ==> u == s.(nIdle := s.nIdle + 1))
  {
    if s.queue != [] { BatchFits(s); }
    hide BatchSize;
  }

  /** A thread enters the loop. */
  function Entered(s: Shared, master: bool): (Shared, Phase)
  {
    Section(s.(nTotal := s.nTotal + 1), master)
  }

  /** A thread is back in the mutex after sleeping. */
  function Resumed(s: Shared, master: bool): (Shared, Phase)
  {
    Section(s.(nIdle := s.nIdle - 1), master)
  }

  /** A thread reports a finished batch and looks for more. */
  function Reported(s: Shared, master: bool, n: int, ok: bool): (Shared, Phase)
  {
    Section(s.(fAllOk := s.fAllOk && ok, nTodo := s.nTodo - n), master)
  }

  function Added(s: Shared, checks: seq<Check>): Shared {
    s.(queue := s.queue + checks, nTodo := s.nTodo + |checks|)
  }

  /** The object: its fields and the code of its critical sections. */
  class CCheckQueue {
    var queue: seq<Check>
    var nIdle: int
    var nTotal: int
    var fAllOk: bool
    var nTodo: int
    var fQuit: bool
    const nBatchSize: nat

    function Fields(): Shared
      reads this
    {
      Shared(queue, nIdle, nTotal, fAllOk, nTodo, fQuit, nBatchSize)
    }

    constructor (nBatchSizeIn: nat)
      ensures Fields() == Shared([], 0, 0, true, 0, false, nBatchSizeIn)
    {
      queue, nIdle, nTotal, fAllOk, nTodo, fQuit := [], 0, 0, true, 0, false;
      nBatchSize := nBatchSizeIn;
    }

    method Add(vChecks: seq<Check>)
      modifies this
      ensures Fields() == Added(old(Fields()), vChecks)
    {
      for i := 0 to |vChecks|
        invariant Fields() == old(Fields()).(queue := old(queue) + vChecks[..i])
      {
        queue := queue + [vChecks[i]];
      }
      nTodo := nTodo + |vChecks|;
    }

    /** `CheckQueueProtocol.IdleMeans` says what the answer means in a run. */
    method IsIdle() returns (r: bool)
      ensures r <==> nTotal == nIdle && nTodo == 0 && fAllOk
    {
      r := nTotal == nIdle && nTodo == 0 && fAllOk;
    }

    /** The batch leaves the queue from its end. */
    method TakeBatch(nNow: int) returns (vChecks: seq<Check>)
      requires 0 <= nNow <= |queue|
      modifies this`queue
      ensures queue == old(queue)[..|old(queue)| - nNow] && vChecks == Taken(old(queue), nNow)
    {
      vChecks := [];
      for i := 0 to nNow
        invariant |vChecks| == i && queue == old(queue)[..|old(queue)| - i]
        invariant forall j :: 0 <= j < i ==> vChecks[j] == old(queue)[|old(queue)| - 1 - j]
      {
        vChecks := vChecks + [queue[|queue| - 1]];
        queue := queue[..|queue| - 1];
      }
    }

    /** The inner loop up to the next wait, batch or return. */
    method EnterSection(fMaster: bool) returns (next: Phase)
      modifies this
      ensures (Fields(), next) == Section(old(Fields()), fMaster)
    {
      if |queue| == 0 {
        if (fMaster || fQuit) && nTodo == 0 {
          nTotal := nTotal - 1;
          var fRet := fAllOk;
          if fMaster {
            fAllOk := true;
          }
          return Returned(fRet);
        }
        nIdle := nIdle + 1;
        return Waiting;
      }
      var nThreads := nTotal + nIdle + 1;
      var share := if nThreads == 0 then 0 else |queue| / nThreads;
      var capped := if nBatchSize < share then nBatchSize else share;
      var nNow := if capped < 1 then 1 else capped;
      BatchFits(Fields());
      assert nNow == BatchSize(Fields());
      hide BatchSize;
      var vChecks := TakeBatch(nNow);
      next := Working(vChecks, 0, fAllOk);
    }

    /** The head of the outer loop: report the last batch, or be counted in the first time. */
    method BeginRound(fMaster: bool, nNow: nat, fOk: bool) returns (notifyMaster: bool, next: Phase)
      modifies this
      ensures nNow > 0 ==> (Fields(), next) == Reported(old(Fields()), fMaster, nNow, fOk)
      ensures nNow == 0 ==> (Fields(), next) == Entered(old(Fields()), fMaster)
      ensures notifyMaster <==> nNow > 0 && old(nTodo) - nNow == 0 && !fMaster
    {
      notifyMaster := false;
      if nNow > 0 {
        fAllOk := fAllOk && fOk;
        nTodo := nTodo - nNow;
        notifyMaster := nTodo == 0 && !fMaster;
      } else {
        nTotal := nTotal + 1;
      }
      next := EnterSection(fMaster);
    }

    method Resume(fMaster: bool) returns (next: Phase)
      modifies this
      ensures (Fields(), next) == Resumed(old(Fields()), fMaster)
    {
      nIdle := nIdle - 1;
      next := EnterSection(fMaster);
    }

    /** The work between two critical sections: after a failure the rest of the batch is skipped. */
    method Execute(vChecks: seq<Check>, fOkIn: bool) returns (fOk: bool)
      ensures fOk == (fOkIn && AllTrue(vChecks))
    {
      fOk := fOkIn;
      for i := 0 to |vChecks|
        invariant fOk == (fOkIn && AllTrue(vChecks[..i]))
      {
        if fOk {
          fOk := vChecks[i];
        }
        assert vChecks[..i + 1] == vChecks[..i] + [vChecks[i]];
      }
      assert vChecks[..|vChecks|] == vChecks;
    }
  }
}
