/**
 The check queue as a protocol: thread 0 is the master, the others are workers,
 and any enabled step may come next.  Spurious wake-ups are steps like any other.
 */
module CheckQueueProtocol {
  import opened CheckQueue

  /**
   `expected` and `quiet` are histories: whether every check added since the last
   `Wait` returned is true, and whether none was added.
   */
  datatype System = System(sh: Shared, threads: seq<Phase>, expected: bool, quiet: bool)

  datatype Step =
    | Add(checks: seq<Check>, who: nat)  // by the master; `who` is the worker that one notification reaches
    | Enter(t: nat)
    | Work(t: nat)
    | Report(t: nat)
    | Wake(t: nat)                       // spurious
    | Resume(t: nat)

  const MASTER: nat := 0

  predicate InLoop(p: Phase) { p.Working? || p.Waiting? || p.Woken? }

  predicate Start(s: System, workers: nat, batch: nat) {
    && s.sh == Shared([], 0, 0, true, 0, s.sh.fQuit, batch)
    && |s.threads| == workers + 1 && s.expected && s.quiet
    && forall t :: 0 <= t < |s.threads| ==> s.threads[t] == Outside
  }

  /** Which steps can be taken. */
  predicate Enabled(s: System, step: Step) {
    && |s.threads| > 0
    && match step
       case Add(checks, who) =>
         && !InLoop(s.threads[MASTER])
         && (|checks| == 1 ==>
               (0 < who < |s.threads| && s.threads[who] == Waiting)
               || (forall t :: 0 < t < |s.threads| ==> s.threads[t] != Waiting))
       case Enter(t) => t < |s.threads| && (s.threads[t] == Outside || (t == MASTER && s.threads[t].Returned?))
       case Work(t) => t < |s.threads| && s.threads[t].Working? && s.threads[t].done < |s.threads[t].batch|
       case Report(t) => t < |s.threads| && s.threads[t].Working? && s.threads[t].done == |s.threads[t].batch| > 0
       case Wake(t) => t < |s.threads| && s.threads[t] == Waiting
       case Resume(t) => t < |s.threads| && s.threads[t] == Woken
  }

  /** `notify_all` on the workers' condition variable. */
  function AllWoken(threads: seq<Phase>): (r: seq<Phase>)
    ensures |r| == |threads|
    ensures forall t :: 0 <= t < |threads| ==>
      r[t] == if t != MASTER && threads[t] == Waiting then Woken else threads[t]
  {
    seq(|threads|, t requires 0 <= t < |threads| => if t != MASTER && threads[t] == Waiting then Woken else threads[t])
  }

  function WokenOne(threads: seq<Phase>, who: nat): seq<Phase> {
    if who < |threads| && threads[who] == Waiting then threads[who := Woken] else threads
  }

  /** Thread `t` leaves its critical section; a returning master closes the round. */
  function Left(s: System, t: nat, after: (Shared, Phase)): System
    requires t < |s.threads|
  {
    var closed := t == MASTER && after.1.Returned?;
    System(after.0, s.threads[t := after.1], if closed then true else s.expected, if closed then true else s.quiet)
  }

  /** Thread `t` leaves the batch it has finished; the last one done tells the master. */
  function Noticed(s: System, t: nat): System
    requires t < |s.threads| && s.threads[t].Working?
  {
    if s.sh.nTodo - |s.threads[t].batch| == 0 && t != MASTER
    then s.(threads := WokenOne(s.threads, MASTER))
    else s
  }

  function Next(s: System, step: Step): System
    requires Enabled(s, step)
  {
    match step
    case Add(checks, who) =>
      var threads := if |checks| == 1 then WokenOne(s.threads, who)
                     else if |checks| > 1 then AllWoken(s.threads) else s.threads;
      System(Added(s.sh, checks), threads, s.expected && AllTrue(checks), s.quiet && checks == [])
    case Enter(t) => Left(s, t, Entered(s.sh, t == MASTER))
    case Work(t) =>
      var w := s.threads[t];
      s.(threads := s.threads[t := Working(w.batch, w.done + 1, w.ok && w.batch[w.done])])
    case Report(t) =>
      var w := s.threads[t];
      Left(Noticed(s, t), t, Reported(s.sh, t == MASTER, |w.batch|, w.ok))
    case Wake(t) => s.(threads := s.threads[t := Woken])
    case Resume(t) => Left(s, t, Resumed(s.sh, t == MASTER))
  }

  // ---------------------------------------------------------------- counting threads

  function Total(threads: seq<Phase>, w: Phase -> int): int {
    if threads == [] then 0 else Total(threads[..|threads| - 1], w) + w(threads[|threads| - 1])
  }

  function Held(p: Phase): int { if p.Working? then |p.batch| else 0 }
  function Looping(p: Phase): int { if InLoop(p) then 1 else 0 }
  function Asleep(p: Phase): int { if p.Waiting? || p.Woken? then 1 else 0 }

  lemma {:induction false} TotalUpdate(threads: seq<Phase>, w: Phase -> int, t: nat, p: Phase)
    requires t < |threads|
    ensures Total(threads[t := p], w) == Total(threads, w) - w(threads[t]) + w(p)
  {
    var init := threads[..|threads| - 1];
    if t < |threads| - 1 {
      TotalUpdate(init, w, t, p);
      assert threads[t := p][..|threads| - 1] == init[t := p];
    } else {
      assert threads[t := p][..|threads| - 1] == init;
    }
  }

  lemma {:induction false} TotalAtLeast(threads: seq<Phase>, w: Phase -> int, t: nat)
    requires (forall p :: w(p) >= 0) && t < |threads|
    ensures Total(threads, w) >= w(threads[t])
  {
    var init := threads[..|threads| - 1];
    TotalNatural(init, w);
    if t < |threads| - 1 {
      TotalAtLeast(init, w, t);
    }
  }

  lemma {:induction false} TotalNatural(threads: seq<Phase>, w: Phase -> int)
    requires forall p :: w(p) >= 0
    ensures Total(threads, w) >= 0
  {
    if threads != [] {
      TotalNatural(threads[..|threads| - 1], w);
    }
  }

  lemma TotalsAreNatural(threads: seq<Phase>)
    ensures Total(threads, Held) >= 0 && Total(threads, Looping) >= 0 && Total(threads, Asleep) >= 0
  {
    TotalNatural(threads, Held);
    TotalNatural(threads, Looping);
    TotalNatural(threads, Asleep);
  }

  lemma {:induction false} TotalOfEqual(threads: seq<Phase>, other: seq<Phase>, w: Phase -> int)
    requires |threads| == |other| && forall t :: 0 <= t < |threads| ==> w(threads[t]) == w(other[t])
    ensures Total(threads, w) == Total(other, w)
  {
    if threads != [] {
      TotalOfEqual(threads[..|threads| - 1], other[..|other| - 1], w);
    }
  }

  // ---------------------------------------------------------------- the invariant

  /** The counters count. */
  predicate Counted(s: System) {
    && s.sh.nTodo == |s.sh.queue| + Total(s.threads, Held)
    && s.sh.nTotal == Total(s.threads, Looping)
    && s.sh.nIdle == Total(s.threads, Asleep)
  }

  /** What a thread's batch promises: no failure so far, and none to come. */
  predicate Hopeful(p: Phase) {
    p.Working? && p.done <= |p.batch| ==> p.ok && AllTrue(p.batch[p.done..])
  }

  predicate WellFormed(p: Phase) {
    p.Working? ==> p.done <= |p.batch| && p.batch != []
  }

  /** No verdict is lost: what is expected is what is known, queued and being worked on. */
  predicate Exact(s: System) {
    s.expected == (s.sh.fAllOk && AllTrue(s.sh.queue) && forall t :: 0 <= t < |s.threads| ==> Hopeful(s.threads[t]))
  }

  predicate Inv(s: System) {
    && |s.threads| > 0
    && (forall t :: 0 <= t < |s.threads| ==> WellFormed(s.threads[t]))
    && Counted(s) && Exact(s)
    && (s.threads[MASTER].Waiting? || s.threads[MASTER].Woken? ==> s.sh.queue == [])
    && (s.threads[MASTER].Waiting? ==> s.sh.nTodo > 0)
    && (s.quiet ==> s.sh.nTodo == 0 && s.sh.fAllOk && s.expected)
  }

  lemma StartInv(s: System, workers: nat, batch: nat)
    requires Start(s, workers, batch)
    ensures Inv(s)
  {
    AllOutside(s.threads);
  }

  lemma {:induction false} AllOutside(threads: seq<Phase>)
    requires forall t :: 0 <= t < |threads| ==> threads[t] == Outside
    ensures Total(threads, Held) == Total(threads, Looping) == Total(threads, Asleep) == 0
  {
    if threads != [] {
      AllOutside(threads[..|threads| - 1]);
    }
  }

  /** Splitting the queue into a rest and a batch splits its truth. */
  lemma TakenTruth(queue: seq<Check>, n: int)
    requires 0 <= n <= |queue|
    ensures AllTrue(queue) <==> AllTrue(queue[..|queue| - n]) && AllTrue(Taken(queue, n))
  {
    if AllTrue(queue[..|queue| - n]) && AllTrue(Taken(queue, n)) {
      forall i | 0 <= i < |queue|
        ensures queue[i]
      {
        if i < |queue| - n {
          assert queue[..|queue| - n][i];
        } else {
          assert Taken(queue, n)[|queue| - 1 - i];
        }
      }
    }
    if AllTrue(queue) {
      assert forall i :: 0 <= i < n ==> Taken(queue, n)[i];
    }
  }

  /**
   A thread with no batch of its own runs through the critical section.  `s` counts it
   as looping but not as asleep, and not among the batches.
   */
  lemma SectionKeeps(s: System, t: nat, base: Shared)
    requires |s.threads| > 0 && t < |s.threads|
    requires forall i :: 0 <= i < |s.threads| ==> WellFormed(s.threads[i])
    requires !s.threads[t].Working?
    requires base.nTodo == |base.queue| + Total(s.threads, Held)
    requires base.nTotal == Total(s.threads, Looping) - Looping(s.threads[t]) + 1
    requires base.nIdle == Total(s.threads, Asleep) - Asleep(s.threads[t])
    requires s.expected == (base.fAllOk && AllTrue(base.queue) && forall i :: 0 <= i < |s.threads| ==> Hopeful(s.threads[i]))
    requires t != MASTER && s.threads[MASTER].Waiting? ==> base.nTodo > 0
    requires t != MASTER && (s.threads[MASTER].Waiting? || s.threads[MASTER].Woken?) ==> base.queue == []
    requires s.quiet ==> base.nTodo == 0 && base.fAllOk && s.expected
    ensures Inv(Left(s, t, Section(base, t == MASTER)))
    ensures t == MASTER && Section(base, true).1.Returned? ==>
      Section(base, true).1.result == s.expected && base.queue == [] && Total(s.threads, Held) == 0
  {
    hide Total, BatchSize;
    var after := Section(base, t == MASTER);
    var u := Left(s, t, after);
    TotalUpdate(s.threads, Held, t, after.1);
    TotalUpdate(s.threads, Looping, t, after.1);
    TotalUpdate(s.threads, Asleep, t, after.1);
    TotalsAreNatural(s.threads);
    if base.queue == [] {
      if after.1.Returned? {
        NobodyWorks(s.threads);
      }
      assert forall i :: 0 <= i < |s.threads| && i != t ==> u.threads[i] == s.threads[i];
    } else {
      BatchFits(base);
      var n := BatchSize(base);
      TakenTruth(base.queue, n);
      assert Taken(base.queue, n)[0..] == Taken(base.queue, n);
      HopefulTake(s.threads, u.threads, t, Taken(base.queue, n), base.fAllOk);
    }
  }

  lemma HopefulTake(threads: seq<Phase>, after: seq<Phase>, t: nat, batch: seq<Check>, ok: bool)
    requires t < |threads| && !threads[t].Working? && after == threads[t := Working(batch, 0, ok)]
    ensures (forall i :: 0 <= i < |after| ==> Hopeful(after[i])) <==>
      (forall i :: 0 <= i < |threads| ==> Hopeful(threads[i])) && ok && AllTrue(batch)
  {
    assert batch[0..] == batch;
    if forall i :: 0 <= i < |after| ==> Hopeful(after[i]) {
      assert Hopeful(after[t]);
      forall i | 0 <= i < |threads|
        ensures Hopeful(threads[i])
      {
        assert i != t ==> Hopeful(after[i]);
      }
    }
  }

  /** If no batch is held, no thread is working. */
  lemma {:induction false} NobodyWorks(threads: seq<Phase>)
    requires forall t :: 0 <= t < |threads| ==> WellFormed(threads[t])
    requires Total(threads, Held) <= 0
    ensures forall t :: 0 <= t < |threads| ==> !threads[t].Working?
    ensures Total(threads, Looping) == Total(threads, Asleep)
  {
    if threads != [] {
      var init := threads[..|threads| - 1];
      TotalNatural(init, Held);
      NobodyWorks(init);
    }
  }

  // ---------------------------------------------------------------- every step keeps the invariant

  lemma EnterKeeps(s: System, t: nat)
    requires Inv(s) && Enabled(s, Enter(t))
    ensures Inv(Next(s, Enter(t)))
  {
    hide Total;
    TotalsAreNatural(s.threads);
    SectionKeeps(s, t, s.sh.(nTotal := s.sh.nTotal + 1));
  }

  lemma ResumeKeeps(s: System, t: nat)
    requires Inv(s) && Enabled(s, Resume(t))
    ensures Inv(Next(s, Resume(t)))
  {
    hide Total;
    TotalsAreNatural(s.threads);
    SectionKeeps(s, t, s.sh.(nIdle := s.sh.nIdle - 1));
  }

  lemma WorkKeeps(s: System, t: nat)
    requires Inv(s) && Enabled(s, Work(t))
    ensures Inv(Next(s, Work(t)))
  {
    hide Total;
    var w := s.threads[t];
    var u := Next(s, Work(t));
    TotalUpdate(s.threads, Held, t, u.threads[t]);
    TotalUpdate(s.threads, Looping, t, u.threads[t]);
    TotalUpdate(s.threads, Asleep, t, u.threads[t]);
    assert w.batch[w.done..] == [w.batch[w.done]] + w.batch[w.done + 1..];
    assert Hopeful(u.threads[t]) <==> Hopeful(s.threads[t]) by {
      assert AllTrue(w.batch[w.done..]) <==> w.batch[w.done] && AllTrue(w.batch[w.done + 1..]) by {
        AddedTruth([w.batch[w.done]], w.batch[w.done + 1..]);
        assert AllTrue([w.batch[w.done]]) <==> w.batch[w.done];
      }
    }
    SameHope(s.threads, u.threads, t);
  }

  lemma SameHope(threads: seq<Phase>, after: seq<Phase>, t: nat)
    requires t < |threads| == |after| && Hopeful(threads[t]) == Hopeful(after[t])
    requires forall i :: 0 <= i < |threads| && i != t ==> Hopeful(threads[i]) == Hopeful(after[i])
    ensures (forall i :: 0 <= i < |after| ==> Hopeful(after[i])) <==> (forall i :: 0 <= i < |threads| ==> Hopeful(threads[i]))
  {
  }

  /** The state between a report and the search for more work: thread `t` holds nothing. */
  function Emptied(s: System, t: nat): System
    requires t < |s.threads| && s.threads[t].Working?
  {
    var n := Noticed(s, t);
    n.(threads := n.threads[t := Outside])
  }

  lemma EmptiedCounts(s: System, t: nat)
    requires Inv(s) && Enabled(s, Report(t))
    ensures var e, n := Emptied(s, t), |s.threads[t].batch|;
      && |e.threads| == |s.threads|
      && (forall i :: 0 <= i < |e.threads| ==> WellFormed(e.threads[i]))
      && Total(e.threads, Held) == Total(s.threads, Held) - n
      && Total(e.threads, Looping) == Total(s.threads, Looping) - 1
      && Total(e.threads, Asleep) == Total(s.threads, Asleep)
  {
    hide Total;
    var w := s.threads[t];
    TotalUpdate(s.threads, Held, MASTER, Woken);
    TotalUpdate(s.threads, Looping, MASTER, Woken);
    TotalUpdate(s.threads, Asleep, MASTER, Woken);
    var n := Noticed(s, t);
    TotalUpdate(n.threads, Held, t, Outside);
    TotalUpdate(n.threads, Looping, t, Outside);
    TotalUpdate(n.threads, Asleep, t, Outside);
  }

  lemma EmptiedHope(s: System, t: nat)
    requires Inv(s) && Enabled(s, Report(t))
    ensures var e, w := Emptied(s, t), s.threads[t];
      s.expected == (s.sh.fAllOk && w.ok && AllTrue(s.sh.queue) && forall i :: 0 <= i < |e.threads| ==> Hopeful(e.threads[i]))
  {
    var e, w := Emptied(s, t), s.threads[t];
    assert w.batch[w.done..] == [];
    assert Hopeful(w) == w.ok;
    if forall i :: 0 <= i < |s.threads| ==> Hopeful(s.threads[i]) {
      forall i | 0 <= i < |e.threads| ensures Hopeful(e.threads[i]) {
        assert Hopeful(s.threads[i]);
      }
      assert Hopeful(s.threads[t]);
    }
    if w.ok && forall i :: 0 <= i < |e.threads| ==> Hopeful(e.threads[i]) {
      forall i | 0 <= i < |s.threads| ensures Hopeful(s.threads[i]) {
        assert Hopeful(e.threads[i]);
      }
    }
  }

  /** What is shared when thread `t` has reported and not yet looked for more. */
  function AfterReport(s: System, t: nat): Shared
    requires t < |s.threads| && s.threads[t].Working?
  {
    var w := s.threads[t];
    s.sh.(fAllOk := s.sh.fAllOk && w.ok, nTodo := s.sh.nTodo - |w.batch|)
  }

  lemma ReportIsSection(s: System, t: nat)
    requires Enabled(s, Report(t))
    ensures Next(s, Report(t)) == Left(Emptied(s, t), t, Section(AfterReport(s, t), t == MASTER))
  {
    var p := Section(AfterReport(s, t), t == MASTER).1;
    assert Emptied(s, t).threads[t := p] == Noticed(s, t).threads[t := p];
  }

  lemma EmptiedWaits(s: System, t: nat)
    requires Inv(s) && Enabled(s, Report(t))
    ensures var e, sh := Emptied(s, t), AfterReport(s, t);
      && (t != MASTER && e.threads[MASTER].Waiting? ==> sh.nTodo > 0)
      && (t != MASTER && (e.threads[MASTER].Waiting? || e.threads[MASTER].Woken?) ==> sh.queue == [])
      && (s.quiet ==> sh.nTodo == 0 && sh.fAllOk && s.expected)
  {
    hide Total;
    TotalsAreNatural(s.threads);
    TotalAtLeast(s.threads, Held, t);
    EmptiedCounts(s, t);
    TotalsAreNatural(Emptied(s, t).threads);
  }

  lemma ReportKeeps(s: System, t: nat)
    requires Inv(s) && Enabled(s, Report(t))
    ensures Inv(Next(s, Report(t)))
  {
    EmptiedCounts(s, t);
    EmptiedHope(s, t);
    EmptiedWaits(s, t);
    ReportIsSection(s, t);
    assert Counted(s);
    hide Inv;
    hide Next;
    SectionKeeps(Emptied(s, t), t, AfterReport(s, t));
  }

  lemma WakeKeeps(s: System, t: nat)
    requires Inv(s) && Enabled(s, Wake(t))
    ensures Inv(Next(s, Wake(t)))
  {
    hide Total;
    TotalUpdate(s.threads, Held, t, Woken);
    TotalUpdate(s.threads, Looping, t, Woken);
    TotalUpdate(s.threads, Asleep, t, Woken);
    SameHope(s.threads, s.threads[t := Woken], t);
  }

  lemma AddKeeps(s: System, checks: seq<Check>, who: nat)
    requires Inv(s) && Enabled(s, Add(checks, who))
    ensures Inv(Next(s, Add(checks, who)))
  {
    hide Total;
    var u := Next(s, Add(checks, who));
    assert forall i :: 0 <= i < |s.threads| ==>
      Hopeful(u.threads[i]) == Hopeful(s.threads[i]) && Held(u.threads[i]) == Held(s.threads[i])
      && Looping(u.threads[i]) == Looping(s.threads[i]) && Asleep(u.threads[i]) == Asleep(s.threads[i])
      && WellFormed(u.threads[i]) == WellFormed(s.threads[i]);
    TotalOfEqual(s.threads, u.threads, Held);
    TotalOfEqual(s.threads, u.threads, Looping);
    TotalOfEqual(s.threads, u.threads, Asleep);
    SameHope(s.threads, u.threads, MASTER);
    AddedTruth(s.sh.queue, checks);
  }

  lemma AddedTruth(queue: seq<Check>, checks: seq<Check>)
    ensures AllTrue(queue + checks) <==> AllTrue(queue) && AllTrue(checks)
  {
    if AllTrue(queue + checks) {
      assert forall i :: 0 <= i < |checks| ==> checks[i] == (queue + checks)[|queue| + i];
      assert forall i :: 0 <= i < |queue| ==> queue[i] == (queue + checks)[i];
    }
  }

  lemma StepKeeps(s: System, step: Step)
    requires Inv(s) && Enabled(s, step)
    ensures Inv(Next(s, step))
  {
    match step
    case Add(checks, who) => AddKeeps(s, checks, who);
    case Enter(t) => EnterKeeps(s, t);
    case Work(t) => WorkKeeps(s, t);
    case Report(t) => ReportKeeps(s, t);
    case Wake(t) => WakeKeeps(s, t);
    case Resume(t) => ResumeKeeps(s, t);
  }

  // ---------------------------------------------------------------- what Wait means

  /** The master leaves `Wait` in this step. */
  predicate Returns(s: System, step: Step)
    requires Enabled(s, step)
  {
    !step.Add? && step.t == MASTER && Next(s, step).threads[MASTER].Returned?
  }

  /**
   `Wait` returns true exactly when every check added since it last returned is true,
   and only when all of them have been taken off the queue and worked through.
   */
  lemma WaitIsExact(s: System, step: Step)
    requires Inv(s) && Enabled(s, step) && Returns(s, step)
    ensures var u := Next(s, step);
      && u.threads[MASTER].result == s.expected
      && u.sh.queue == [] && u.sh.nTodo == 0
      && (forall t :: 0 <= t < |u.threads| ==> !u.threads[t].Working?)
      && u.expected && u.quiet
  {
    hide Total;
    StepKeeps(s, step);
    TotalsAreNatural(s.threads);
    var u := Next(s, step);
    match step
    case Enter(t) =>
      SectionKeeps(s, t, s.sh.(nTotal := s.sh.nTotal + 1));
      NobodyWorks(s.threads);
    case Resume(t) =>
      SectionKeeps(s, t, s.sh.(nIdle := s.sh.nIdle - 1));
      NobodyWorks(s.threads);
    case Report(t) =>
      var e := Emptied(s, t);
      EmptiedCounts(s, t);
      EmptiedHope(s, t);
      EmptiedWaits(s, t);
      SectionKeeps(e, t, AfterReport(s, t));
      NobodyWorks(e.threads);
      assert u.threads == e.threads[MASTER := u.threads[MASTER]];
    case Work(t) =>
    case Wake(t) =>
  }

  /**
   Between the return of `Wait` and the next check, the queue is idle: the assertion of
   the controller's constructor holds, whatever the workers do meanwhile.
   */
  lemma IdleWhenQuiet(s: System)
    requires Inv(s) && s.quiet && !InLoop(s.threads[MASTER])
    ensures s.sh.nTotal == s.sh.nIdle && s.sh.nTodo == 0 && s.sh.fAllOk
  {
    NobodyWorks(s.threads);
  }

  /**
   What `IsIdle` tells its caller: no check is queued, none is being worked on by any thread,
   and no failure waits to be reported.
   */
  lemma IdleMeans(s: System)
    requires Inv(s)
    ensures s.sh.nTotal == s.sh.nIdle && s.sh.nTodo == 0 && s.sh.fAllOk <==>
      s.sh.queue == [] && s.sh.fAllOk && forall t :: 0 <= t < |s.threads| ==> !s.threads[t].Working?
  {
    TotalsAreNatural(s.threads);
    if s.sh.nTodo == 0 { NobodyWorks(s.threads); }
    if s.sh.queue == [] && forall t :: 0 <= t < |s.threads| ==> !s.threads[t].Working? {
      if Total(s.threads, Held) > 0 { var t := SomebodyWorks(s.threads); }
      NobodyWorks(s.threads);
    }
  }

  /** The batch a thread takes has between one check and the whole queue, and at most the configured size unless one. */
  lemma BatchBounds(s: System, step: Step, t: nat)
    requires Inv(s) && Enabled(s, step) && t < |s.threads|
    requires !s.threads[t].Working? && Next(s, step).threads[t].Working?
    ensures var n := |Next(s, step).threads[t].batch|;
      1 <= n <= |s.sh.queue| && (n == 1 || n <= s.sh.nBatchSize)
  {
    hide BatchSize;
    match step
    case Enter(_) => BatchFits(s.sh.(nTotal := s.sh.nTotal + 1));
    case Resume(_) => BatchFits(s.sh.(nIdle := s.sh.nIdle - 1));
    case _ =>
  }

  // ---------------------------------------------------------------- runs

  /** `steps` can be taken one after the other from `s`. */
  predicate CanRun(s: System, steps: seq<Step>)
    decreases |steps|
  {
    steps == [] || (Enabled(s, steps[0]) && CanRun(Next(s, steps[0]), steps[1..]))
  }

  function Run(s: System, steps: seq<Step>): System
    requires CanRun(s, steps)
    decreases |steps|
  {
    if steps == [] then s else Run(Next(s, steps[0]), steps[1..])
  }

  lemma {:induction false} RunKeeps(s: System, steps: seq<Step>)
    requires Inv(s) && CanRun(s, steps)
    ensures Inv(Run(s, steps))
    decreases |steps|
  {
    if steps != [] {
      StepKeeps(s, steps[0]);
      RunKeeps(Next(s, steps[0]), steps[1..]);
    }
  }

  /**
   Every interleaving, from the start: the counters count, a waiting master has work
   outstanding, and a return of `Wait` tells the truth.
   */
  lemma EveryRun(s: System, workers: nat, batch: nat, steps: seq<Step>, next: Step)
    requires Start(s, workers, batch) && CanRun(s, steps) && Enabled(Run(s, steps), next)
    ensures var u := Run(s, steps);
      && u.sh.nTodo == |u.sh.queue| + Total(u.threads, Held)
      && (u.threads[MASTER].Waiting? ==> u.sh.nTodo > 0)
      && (Returns(u, next) ==> Next(u, next).threads[MASTER].result == u.expected)
      && (u.quiet && !InLoop(u.threads[MASTER]) ==> u.sh.nTotal == u.sh.nIdle && u.sh.nTodo == 0 && u.sh.fAllOk)
  {
    StartInv(s, workers, batch);
    RunKeeps(s, steps);
    var u := Run(s, steps);
    if Returns(u, next) { WaitIsExact(u, next); }
    if u.quiet && !InLoop(u.threads[MASTER]) { IdleWhenQuiet(u); }
  }

  // ---------------------------------------------------------------- no work is slept through

  /** The worker has not left for good and is not asleep. */
  predicate OnItsFeet(p: Phase) { p.Outside? || p.Working? || p.Woken? }

  /** As long as there is work and nobody is told to quit, some worker is up. */
  predicate Attended(s: System) {
    s.sh.queue != [] && !s.sh.fQuit && |s.threads| > 1 ==> exists t :: 0 < t < |s.threads| && OnItsFeet(s.threads[t])
  }

  /** Nobody has left while nobody was told to. */
  predicate Staying(s: System) {
    !s.sh.fQuit ==> forall t :: 0 < t < |s.threads| ==> !s.threads[t].Returned?
  }

  lemma LeavesAttended(s: System, t: nat, base: Shared)
    requires t < |s.threads| && Staying(s) && base.fQuit == s.sh.fQuit
    requires base.queue != [] && !base.fQuit && t == MASTER && |s.threads| > 1 ==>
      exists i :: 0 < i < |s.threads| && OnItsFeet(s.threads[i])
    ensures Attended(Left(s, t, Section(base, t == MASTER))) && Staying(Left(s, t, Section(base, t == MASTER)))
  {
    SectionMeans(base, t == MASTER);
    hide Section;
    var u := Left(s, t, Section(base, t == MASTER));
    if t != MASTER {
      assert base.queue != [] ==> OnItsFeet(u.threads[t]);
    } else if i :| 0 < i < |s.threads| && OnItsFeet(s.threads[i]) {
      assert OnItsFeet(u.threads[i]);
    }
  }

  lemma AddAttended(s: System, checks: seq<Check>, who: nat)
    requires Attended(s) && Staying(s) && Enabled(s, Add(checks, who))
    ensures Attended(Next(s, Add(checks, who))) && Staying(Next(s, Add(checks, who)))
  {
    var u := Next(s, Add(checks, who));
    if checks != [] && |s.threads| > 1 && !s.sh.fQuit {
      assert !s.threads[1].Returned?;
      if |checks| == 1 && 0 < who < |s.threads| && s.threads[who] == Waiting {
        assert OnItsFeet(u.threads[who]);
      } else {
        assert OnItsFeet(u.threads[1]);
      }
    } else if i :| 0 < i < |s.threads| && OnItsFeet(s.threads[i]) {
      assert OnItsFeet(u.threads[i]);
    }
  }

  lemma StepAttended(s: System, step: Step)
    requires Attended(s) && Staying(s) && Enabled(s, step)
    ensures Attended(Next(s, step)) && Staying(Next(s, step))
  {
    var u := Next(s, step);
    match step
    case Add(checks, who) => AddAttended(s, checks, who);
    case Enter(t) => LeavesAttended(s, t, s.sh.(nTotal := s.sh.nTotal + 1));
    case Resume(t) => LeavesAttended(s, t, s.sh.(nIdle := s.sh.nIdle - 1));
    case Report(t) => ReportAttended(s, t);
    case Work(t) =>
      if i :| 0 < i < |s.threads| && OnItsFeet(s.threads[i]) { assert OnItsFeet(u.threads[i]); }
    case Wake(t) =>
      if i :| 0 < i < |s.threads| && OnItsFeet(s.threads[i]) { assert OnItsFeet(u.threads[i]); }
  }

  lemma ReportAttended(s: System, t: nat)
    requires Attended(s) && Staying(s) && Enabled(s, Report(t))
    ensures Attended(Next(s, Report(t))) && Staying(Next(s, Report(t)))
  {
    var n, w := Noticed(s, t), s.threads[t];
    if i :| 0 < i < |s.threads| && OnItsFeet(s.threads[i]) { assert OnItsFeet(n.threads[i]); }
    LeavesAttended(n, t, s.sh.(fAllOk := s.sh.fAllOk && w.ok, nTodo := s.sh.nTodo - |w.batch|));
  }

  /**
   No wake-up is lost: in every run with workers and no order to quit, whenever checks are queued some
   worker can go on without the master and without a spurious wake-up.
   */
  lemma {:induction false} WorkIsNoticed(s: System, workers: nat, batch: nat, steps: seq<Step>) returns (step: Step)
    requires Start(s, workers, batch) && workers > 0 && !s.sh.fQuit && CanRun(s, steps)
    requires Run(s, steps).sh.queue != []
    ensures Enabled(Run(s, steps), step) && Progress(step) && step.t != MASTER
  {
    StartInv(s, workers, batch);
    RunKeeps(s, steps);
    RunAttended(s, steps);
    var u := Run(s, steps);
    var t: nat :| 0 < t < |u.threads| && OnItsFeet(u.threads[t]);
    assert WellFormed(u.threads[t]);
    step := match u.threads[t]
      case Outside => Enter(t)
      case Working(b, done, _) => if done < |b| then Work(t) else Report(t)
      case _ => Resume(t);
  }

  lemma {:induction false} RunAttended(s: System, steps: seq<Step>)
    requires Attended(s) && Staying(s) && CanRun(s, steps)
    ensures Attended(Run(s, steps)) && Run(s, steps).sh.fQuit == s.sh.fQuit && |Run(s, steps).threads| == |s.threads|
    decreases |steps|
  {
    if steps != [] {
      StepAttended(s, steps[0]);
      SameQuit(s, steps[0]);
      RunAttended(Next(s, steps[0]), steps[1..]);
    }
  }

  lemma SameQuit(s: System, step: Step)
    requires Enabled(s, step)
    ensures Next(s, step).sh.fQuit == s.sh.fQuit && |Next(s, step).threads| == |s.threads|
  {
    hide BatchSize;
  }

  // ---------------------------------------------------------------- Wait returns

  /** Neither a new round nor a spurious wake-up. */
  predicate Progress(step: Step) {
    !step.Add? && !step.Wake? && !(step.Enter? && step.t == MASTER)
  }

  /** While the master is in `Wait`, some thread can go on: nobody is stuck. */
  lemma NeverStuck(s: System) returns (step: Step)
    requires Inv(s) && InLoop(s.threads[MASTER])
    ensures Enabled(s, step) && Progress(step)
  {
    var m := s.threads[MASTER];
    if m.Woken? {
      step := Resume(MASTER);
    } else if m.Working? {
      step := if m.done < |m.batch| then Work(MASTER) else Report(MASTER);
    } else {
      var t := SomebodyWorks(s.threads);
      var p := s.threads[t];
      step := if p.done < |p.batch| then Work(t) else Report(t);
    }
  }

  lemma {:induction false} SomebodyWorks(threads: seq<Phase>) returns (t: nat)
    requires Total(threads, Held) > 0
    ensures t < |threads| && threads[t].Working?
  {
    if threads[|threads| - 1].Working? {
      t := |threads| - 1;
    } else {
      t := SomebodyWorks(threads[..|threads| - 1]);
    }
  }

  /** What is left to do: queued checks weigh most, then batches in hand, then threads to be scheduled. */
  function Weight(p: Phase): int {
    match p
    case Outside => 1
    case Working(batch, done, _) => 2 + (if done <= |batch| then |batch| - done else 0)
    case Waiting => 0
    case Woken => 1
    case Returned(_) => 0
  }

  function Measure(s: System): int {
    4 * |s.sh.queue| + Total(s.threads, Weight)
  }

  /** A look into the queue: a batch in hand weighs less than it did in the queue. */
  lemma SectionCounts(base: Shared, master: bool)
    ensures var after := Section(base, master);
      4 * |after.0.queue| + Weight(after.1) <= 4 * |base.queue|
  {
    if base.queue != [] { BatchFits(base); }
  }

  /** Thread `t` goes through the critical section: what it weighed before is the most that is lost. */
  lemma MovedCounts(threads: seq<Phase>, t: nat, base: Shared, master: bool)
    requires t < |threads|
    ensures var after := Section(base, master);
      4 * |after.0.queue| + Total(threads[t := after.1], Weight) <= 4 * |base.queue| + Total(threads, Weight) - Weight(threads[t])
  {
    hide Total, Section;
    SectionCounts(base, master);
    TotalUpdate(threads, Weight, t, Section(base, master).1);
    hide Weight;
  }

  lemma NoticedCounts(s: System, t: nat)
    requires t < |s.threads| && s.threads[t].Working?
    ensures Total(Noticed(s, t).threads, Weight) <= Total(s.threads, Weight) + 1
  {
    hide Total;
    if |s.threads| > 0 { TotalUpdate(s.threads, Weight, MASTER, Woken); }
  }

  lemma ReportCounts(s: System, t: nat)
    requires Enabled(s, Report(t))
    ensures Measure(Next(s, Report(t))) < Measure(s)
  {
    hide Total, Section;
    var w, n := s.threads[t], Noticed(s, t);
    NoticedCounts(s, t);
    assert n.threads[t] == w && Weight(w) == 2;
    hide Weight;
    MovedCounts(n.threads, t, s.sh.(fAllOk := s.sh.fAllOk && w.ok, nTodo := s.sh.nTodo - |w.batch|), t == MASTER);
  }

  /** Every step of progress leaves less to do. */
  lemma ProgressCounts(s: System, step: Step)
    requires Enabled(s, step) && Progress(step)
    ensures Measure(Next(s, step)) < Measure(s)
  {
    hide Total, Section;
    match step
    case Enter(t) => MovedCounts(s.threads, t, s.sh.(nTotal := s.sh.nTotal + 1), t == MASTER);
    case Resume(t) => MovedCounts(s.threads, t, s.sh.(nIdle := s.sh.nIdle - 1), t == MASTER);
    case Report(t) => ReportCounts(s, t);
    case Work(t) => TotalUpdate(s.threads, Weight, t, Next(s, step).threads[t]);
  }

  /**
   Without spurious wake-ups, every schedule brings `Wait` to its end: a run of progress
   alone is no longer than what there was to do, and while the master is in the loop
   it can be continued (`NeverStuck`).
   */
  lemma {:induction false} WaitEnds(s: System, steps: seq<Step>)
    requires Inv(s) && CanRun(s, steps) && forall i :: 0 <= i < |steps| ==> Progress(steps[i])
    ensures |steps| <= Measure(s)
    decreases |steps|
  {
    TotalNatural(s.threads, Weight);
    if steps != [] {
      ProgressCounts(s, steps[0]);
      StepKeeps(s, steps[0]);
      WaitEnds(Next(s, steps[0]), steps[1..]);
    }
  }
}
