/** When a stop flushes and when a start makes a worker, look by look (camera/NXStreamThread.cpp). Later is what one
    look at the state word sees; LaterN is what the n-th look sees if nothing but looks happens. */
module StreamTiming {
  import opened StreamThread

  lemma {:induction false} LatersDrift(w: World, n: nat)
    ensures Drifted(w.shared, LaterN(w, n).shared)
  {
    hide Later;
    if n > 0 {
      LatersDrift(w, n - 1);
      LaterDrifts(LaterN(w, n - 1));
      DriftsOn(w.shared, LaterN(w, n - 1).shared, LaterN(w, n).shared);
    }
  }

  /** Nothing but the controller takes the state from EXIT. */
  lemma ExitStays(w: World, m: nat, n: nat)
    requires m <= n && LaterN(w, m).shared.state == EXIT
    ensures LaterN(w, n).shared.state == EXIT
  {
    hide Later;
    LaterSum(w, m, n - m);
    LatersDrift(LaterN(w, m), n - m);
  }

  /** The poll leaves something of its bound exactly if one look before the last sees EXIT. */
  lemma {:induction false} PollExact(w: World, timeOut: nat)
    ensures Polled(w, timeOut).1 > 0 <==> timeOut > 0 && LaterN(w, timeOut).shared.state == EXIT
    decreases timeOut
  {
    hide Later;
    var read := Later(w);
    LaterFirst(w, 0);
    if timeOut > 0 {
      LaterFirst(w, timeOut - 1);
      if read.shared.state == EXIT {
        ExitStays(w, 1, timeOut);
      } else {
        PollExact(read, timeOut - 1);
        assert timeOut == 1 ==> LaterN(w, 1) == read;
      }
    }
  }

  /** Accesses of the worker, and then this event. */
  ghost predicate EndsWith(before: seq<Event>, after: seq<Event>, event: Event) {
    |after| > |before| && after[|after| - 1] == event && OnlyAccesses(before, after[..|after| - 1])
  }

  /** Under every schedule: a stop that reads EXIT does nothing; one that waits flushes if and only if the worker has
      written EXIT by the fifth look after the exit was asked for; and one that does not wait always flushes. */
  lemma FlushedExact(w: World, waitExit: bool)
    ensures var end, first := Stopped(w, waitExit), Later(w);
      && end.shared.state == EXIT
      && if first.shared.state == EXIT then end == first
         else if waitExit && LaterN(Set(first, WAIT_EXIT), 5).shared.state != EXIT then
           OnlyAccesses(w.shared.log, end.shared.log)
         else EndsWith(w.shared.log, end.shared.log, Flush(waitExit))
  {
    hide Later, Set, Polled, Forced;
    LaterDrifts(w);
    var first := Later(w);
    if first.shared.state != EXIT {
      var (polled, timeOut) := if waitExit then Polled(Set(first, WAIT_EXIT), 5) else (first, 5);
      if waitExit {
        PollExact(Set(first, WAIT_EXIT), 5);
        SetLosesToExit(first, WAIT_EXIT);
        PollDrifts(Set(first, WAIT_EXIT), 5);
      }
      ForcedExit(polled);
      var now := Later(Forced(polled));
      LaterDrifts(Forced(polled));
      assert OnlyAccesses(w.shared.log, now.shared.log);
      assert (now.shared.log + [Flush(waitExit)])[..|now.shared.log|] == now.shared.log;
    }
  }

  /** After so many looks the wait in start has seen EXIT for the first time, or has given up. */
  ghost predicate FirstExit(w: World, n: nat) {
    n >= 1 && LaterN(w, n).shared.state != WAIT_EXIT && forall m | 1 <= m < n :: LaterN(w, m).shared.state == WAIT_EXIT
  }

  lemma {:induction false} AwaitExact(w: World, waitCount: nat, n: nat)
    requires n <= waitCount + 1 ==> FirstExit(w, n)
    requires n > waitCount + 1 ==> forall m | 1 <= m <= waitCount + 1 :: LaterN(w, m).shared.state == WAIT_EXIT
    ensures Awaited(w, waitCount) == LaterN(w, if n <= waitCount + 1 then n else waitCount + 1)
    decreases waitCount
  {
    hide Later;
    var read := Later(w);
    LaterFirst(w, 0);
    assert LaterN(w, 1) == read;
    if n > 1 && waitCount > 0 {
      forall m: nat ensures LaterN(w, m + 1) == LaterN(read, m) {
        LaterFirst(w, m);
      }
      AwaitExact(read, waitCount - 1, n - 1);
    }
  }

  /** Right after a spawn the state is RUNNING, whatever the new worker does meanwhile. */
  lemma SetFromExit(w: World)
    requires w.shared.state == EXIT
    ensures Set(w, RUNNING) == World(LaterN(w, 2).shared.(state := RUNNING), LaterN(w, 2).schedule)
  {
    hide Later;
    LaterDrifts(w);
    LaterDrifts(Later(w));
    LaterFirst(w, 1);
    LaterFirst(Later(w), 0);
    assert LaterN(Later(Later(w)), 0) == Later(Later(w));
  }

  /** Under every schedule: a start that reads RUNNING does nothing. Any other, if the twelfth look still sees a pending
      exit, gives up; else it makes a worker and leaves the state at RUNNING if and only if the stream is known, a
      thread can be had, and the last worker is gone two looks after the first EXIT, of which the eleventh counts as
      the last. */
  lemma StartedExact(w: World, known: bool, creatable: bool, n: nat)
    requires Later(w).shared.state != RUNNING ==>
      if n <= 12 then FirstExit(Later(w), n) else LaterN(Later(w), 12).shared.state == WAIT_EXIT
    ensures var (after, status) := Started(w, known, creatable);
      var first := Later(w);
      if first.shared.state == RUNNING then after == first && status == NO_ERROR
      else if n > 12 then after == LaterN(first, 12) && status == NO_INIT
      else
        var seen := if n < 12 then n else 11;
        var ran := LaterN(first, seen + 2);
        if !known then after == LaterN(first, seen + 1) && status == INVALID_OPERATION
        else if !ran.shared.worker.Gone? || !creatable then after == ran && status == INVALID_OPERATION
        else status == NO_ERROR && after.shared.state == RUNNING
             && OnlyAccesses(ran.shared.log + [Spawn], after.shared.log)
  {
    hide Later, Set, Awaited;
    var first := Later(w);
    if first.shared.state != RUNNING {
      if n > 12 {
        PendingBefore(first, 12);
      }
      AwaitExact(first, 10, n);
      var seen := if n < 12 then n else 11;
      assert LaterN(first, seen + 1) == Later(LaterN(first, seen));
      assert LaterN(first, seen + 2) == Later(LaterN(first, seen + 1));
      LatersDrift(first, seen + 1);
      if n <= 12 {
        ExitAfter(first, n, seen + 1);
        ExitStays(first, seen + 1, seen + 2);
        SpawnRuns(LaterN(first, seen + 2));
      }
    }
  }

  /** A pending exit that is seen now was seen before. */
  lemma PendingBefore(w: World, n: nat)
    requires LaterN(w, n).shared.state == WAIT_EXIT
    ensures forall m | 1 <= m <= n :: LaterN(w, m).shared.state == WAIT_EXIT
  {
    hide Later;
    forall m | 1 <= m <= n ensures LaterN(w, m).shared.state == WAIT_EXIT {
      LaterSum(w, m, n - m);
      LatersDrift(LaterN(w, m), n - m);
    }
  }

  lemma ExitAfter(w: World, m: nat, n: nat)
    requires w.shared.state != RUNNING && LaterN(w, m).shared.state != WAIT_EXIT && m <= n
    ensures LaterN(w, n).shared.state == EXIT
  {
    hide Later;
    LatersDrift(w, m);
    ExitStays(w, m, n);
  }

  lemma SpawnRuns(w: World)
    requires w.shared.state == EXIT
    ensures var spawned := w.(shared := w.shared.(worker := Readying, log := w.shared.log + [Spawn]));
      Set(spawned, RUNNING).shared.state == RUNNING
      && OnlyAccesses(spawned.shared.log, Set(spawned, RUNNING).shared.log)
  {
    hide Later, Set;
    var spawned := w.(shared := w.shared.(worker := Readying, log := w.shared.log + [Spawn]));
    SetFromExit(spawned);
    LatersDrift(spawned, 2);
  }
}
