/** Starting and stopping a camera stream thread (camera/NXStreamThread.cpp, NXStreamThread.h): one controller, one
    worker, and a shared state word that both write with a read followed by a compare-and-swap. */
module StreamThread {

  datatype State = EXIT | RUNNING | WAIT_EXIT

  /** Where the worker is: in readyToRun, in threadLoop, about to write EXIT, about to swap, returning, or dead. */
  datatype Worker = Gone | Readying | Looping | Leaving | Swapping(seen: State) | Returning

  datatype Event = Spawn | Access | Flush(waited: bool)

  datatype Shared = Shared(state: State, worker: Worker, log: seq<Event>)

  // ----- The worker -----

  datatype Move = Touch | Ready | NotReady | Check | Fail | Quit | Read | Swap | Die

  /** One step of the worker; a move that does not fit where the worker is does nothing. Check and Fail are
      CHECK_AND_EXIT and ERROR_EXIT; Quit leaves the loop without writing EXIT, as recording does when the driver
      gives no buffer. */
  function Moved(s: Shared, move: Move): Shared {
    match (move, s.worker)
    case (Touch, Readying) => s.(log := s.log + [Access])
    case (Touch, Looping) => s.(log := s.log + [Access])
    case (Ready, Readying) => s.(worker := Looping)
    case (NotReady, Readying) => s.(worker := Returning)
    case (Check, Looping) => if s.state == WAIT_EXIT then s.(worker := Leaving) else s
    case (Fail, Looping) => s.(worker := Leaving)
    case (Quit, Looping) => s.(worker := Returning)
    case (Read, Leaving) => s.(worker := Swapping(s.state))
    case (Swap, Swapping(seen)) => s.(state := if s.state == seen then EXIT else s.state, worker := Returning)
    case (Die, Returning) => s.(worker := Gone)
    case _ => s
  }

  function MovedAll(s: Shared, moves: seq<Move>): Shared
    decreases |moves|
  {
    if moves == [] then s else MovedAll(Moved(s, moves[0]), moves[1..])
  }

  predicate Active(worker: Worker) {
    !worker.Gone? && !worker.Returning?
  }

  predicate InLoop(worker: Worker) {
    worker.Readying? || worker.Looping?
  }

  // ----- The controller: between any two of its accesses the worker makes any number of moves -----

  /** The shared state and the moves that the worker is still going to make, one list for each access. */
  datatype World = World(shared: Shared, schedule: seq<seq<Move>>)

  function Later(w: World): World {
    if w.schedule == [] then w else World(MovedAll(w.shared, w.schedule[0]), w.schedule[1..])
  }

  /** setState: read the state, then swap only if it is still what was read. */
  function Set(w: World, state: State): World {
    var read := Later(w);
    var now := Later(read);
    if now.shared.state == read.shared.state then now.(shared := now.shared.(state := state)) else now
  }

  datatype Status = NO_ERROR | NO_INIT | INVALID_OPERATION

  /** The wait for a pending exit in start. */
  function Awaited(w: World, waitCount: nat): World
    decreases waitCount
  {
    var read := Later(w);
    if read.shared.state == WAIT_EXIT && waitCount > 0 then Awaited(read, waitCount - 1) else read
  }

  /** start; known says whether the stream id is registered, and creatable whether a thread can be had. Thread::run
      refuses while the last worker lives. */
  function Started(w: World, known: bool, creatable: bool): (World, Status) {
    var first := Later(w);
    if first.shared.state == RUNNING then (first, NO_ERROR)
    else
      var settled := Later(Awaited(first, 10));
      if settled.shared.state == WAIT_EXIT then (settled, NO_INIT)
      else if !known then (settled, INVALID_OPERATION)
      else
        var ran := Later(settled);
        if !ran.shared.worker.Gone? || !creatable then (ran, INVALID_OPERATION)
        else (Set(ran.(shared := ran.shared.(worker := Readying, log := ran.shared.log + [Spawn])), RUNNING), NO_ERROR)
  }

  /** The bounded wait for EXIT in stop, and what is left of the bound. */
  function Polled(w: World, timeOut: nat): (World, nat)
    decreases timeOut
  {
    var read := Later(w);
    if read.shared.state != EXIT && timeOut > 0 then Polled(read, timeOut - 1) else (read, timeOut)
  }

  function Flushed(w: World, waitExit: bool, timeOut: nat): World {
    var now := Later(w);
    if timeOut > 0 then now.(shared := now.shared.(log := now.shared.log + [Flush(waitExit)])) else now
  }

  function Forced(w: World): World {
    var read := Later(w);
    if read.shared.state != EXIT then Set(read, EXIT) else read
  }

  function Stopped(w: World, waitExit: bool): World {
    var first := Later(w);
    if first.shared.state == EXIT then first
    else
      var (polled, timeOut) := if waitExit then Polled(Set(first, WAIT_EXIT), 5) else (first, 5);
      Flushed(Forced(polled), waitExit, timeOut)
  }

  class NXStreamThread {
    var shared: Shared
    var schedule: seq<seq<Move>>

    function Value(): World
      reads this
    {
      World(shared, schedule)
    }

    constructor (schedule: seq<seq<Move>>)
      ensures Value() == Fresh(schedule)
    {
      this.shared := Shared(EXIT, Gone, []);
      this.schedule := schedule;
    }

    method Worker()
      modifies this
      ensures Value() == Later(old(Value()))
    {
      if schedule != [] {
        shared, schedule := MovedAll(shared, schedule[0]), schedule[1..];
      }
    }

    method GetState() returns (state: State)
      modifies this
      ensures Value() == Later(old(Value())) && state == shared.state
    {
      Worker();
      state := shared.state;
    }

    method SetState(state: State)
      modifies this
      ensures Value() == Set(old(Value()), state)
    {
      var seen := GetState();
      Worker();
      if shared.state == seen {
        shared := shared.(state := state);
      }
    }

    method Run(creatable: bool) returns (ok: bool)
      modifies this
      ensures var ran := Later(old(Value()));
              && ok == (ran.shared.worker.Gone? && creatable)
              && Value() == if ok
                            then ran.(shared := ran.shared.(worker := Readying, log := ran.shared.log + [Spawn]))
                            else ran
    {
      Worker();
      ok := shared.worker.Gone? && creatable;
      if ok {
        shared := shared.(worker := Readying, log := shared.log + [Spawn]);
      }
    }

    method Start(known: bool, creatable: bool) returns (status: Status)
      modifies this
      ensures (Value(), status) == Started(old(Value()), known, creatable)
    {
      hide Later, Set;
      var state := GetState();
      if state == RUNNING {
        return NO_ERROR;
      }
      ghost var first := Value();
      var waitCount := 10;
      state := GetState();
      while state == WAIT_EXIT && waitCount > 0
        invariant 0 <= waitCount && state == shared.state
        invariant Awaited(first, 10)
               == if state == WAIT_EXIT && waitCount > 0 then Awaited(Value(), waitCount - 1) else Value()
      {
        state := GetState();
        waitCount := waitCount - 1;
      }
      state := GetState();
      if state == WAIT_EXIT {
        return NO_INIT;
      }
      if !known {
        return INVALID_OPERATION;
      }
      var ok := Run(creatable);
      if !ok {
        return INVALID_OPERATION;
      }
      SetState(RUNNING);
      return NO_ERROR;
    }

    method Stop(waitExit: bool) returns (status: Status)
      modifies this
      ensures Value() == Stopped(old(Value()), waitExit) && status == NO_ERROR
    {
      hide Later, Set;
      status := NO_ERROR;
      var state := GetState();
      if state == EXIT {
        return;
      }
      var timeOut := 5;
      if waitExit {
        SetState(WAIT_EXIT);
        ghost var asked := Value();
        state := GetState();
        while state != EXIT && timeOut > 0
          invariant 0 <= timeOut && state == shared.state
          invariant Polled(asked, 5)
                 == if state != EXIT && timeOut > 0 then Polled(Value(), timeOut - 1) else (Value(), timeOut)
        {
          state := GetState();
          timeOut := timeOut - 1;
        }
      }
      state := GetState();
      if state != EXIT {
        SetState(EXIT);
      }
      Worker();
      if timeOut > 0 {
        shared := shared.(log := shared.log + [Flush(waitExit)]);
      }
    }
  }

  function Fresh(schedule: seq<seq<Move>>): World {
    World(Shared(EXIT, Gone, []), schedule)
  }

  // ----- Every sequence of calls -----

  datatype Call = Start(known: bool, creatable: bool) | Stop(waitExit: bool)

  function Called(w: World, call: Call): World {
    match call
    case Start(known, creatable) => Started(w, known, creatable).0
    case Stop(waitExit) => Stopped(w, waitExit)
  }

  function After(w: World, calls: seq<Call>): World {
    if calls == [] then w else Called(After(w, calls[..|calls| - 1]), calls[|calls| - 1])
  }

  // ----- What the worker can do to the controller -----

  /** Nothing but accesses was added. */
  ghost predicate OnlyAccesses(before: seq<Event>, after: seq<Event>) {
    before <= after && forall i | |before| <= i < |after| :: after[i] == Access
  }

  ghost predicate Drifted(s: Shared, t: Shared) {
    && OnlyAccesses(s.log, t.log)
    && (t.state != s.state ==> t.state == EXIT && !Active(t.worker))
    && (Active(t.worker) ==> Active(s.worker))
    && (!Active(s.worker) ==> t.log == s.log)
    && (s.worker.Gone? ==> t == s)
  }

  lemma {:induction false} WorkerDrifts(s: Shared, moves: seq<Move>)
    ensures Drifted(s, MovedAll(s, moves))
    decreases |moves|
  {
    if moves != [] {
      WorkerDrifts(Moved(s, moves[0]), moves[1..]);
    }
  }

  lemma LaterDrifts(w: World)
    ensures Drifted(w.shared, Later(w).shared)
  {
    if w.schedule != [] {
      WorkerDrifts(w.shared, w.schedule[0]);
    }
  }

  lemma DriftsOn(s: Shared, t: Shared, u: Shared)
    requires Drifted(s, t) && Drifted(t, u)
    ensures Drifted(s, u)
  {
  }

  /** A write of the controller is lost only to an EXIT that the worker wrote on its way out. */
  lemma SetLosesToExit(w: World, state: State)
    ensures var after := Set(w, state).shared;
            && Drifted(w.shared, after.(state := w.shared.state))
            && (after.state != state ==> after.state == EXIT && !Active(after.worker))
  {
    hide Later;
    LaterDrifts(w);
    LaterDrifts(Later(w));
  }

  lemma {:induction false} PollDrifts(w: World, timeOut: nat)
    ensures var (p, left) := Polled(w, timeOut);
            && Drifted(w.shared, p.shared)
            && (left > 0 ==> p.shared.state == EXIT)
    decreases timeOut
  {
    hide Later;
    LaterDrifts(w);
    var read := Later(w);
    if read.shared.state != EXIT && timeOut > 0 {
      PollDrifts(read, timeOut - 1);
    }
  }

  lemma {:induction false} AwaitDrifts(w: World, waitCount: nat)
    ensures Drifted(w.shared, Awaited(w, waitCount).shared)
    decreases waitCount
  {
    hide Later;
    LaterDrifts(w);
    var read := Later(w);
    if read.shared.state == WAIT_EXIT && waitCount > 0 {
      AwaitDrifts(read, waitCount - 1);
    }
  }

  // ----- Flush only after the last access -----

  /** After a flush that waited for the worker, or that did not, the stream is not touched before the next worker is
      made. */
  ghost predicate Safe(log: seq<Event>, waited: bool) {
    forall i, j | 0 <= i < j < |log| && log[i] == Flush(waited) && log[j] == Access ::
      exists k :: i < k < j && log[k] == Spawn
  }

  /** Since the last worker was made there has been a flush that waited. */
  ghost predicate Calm(log: seq<Event>) {
    exists i :: 0 <= i < |log| && log[i] == Flush(true) && forall k | i < k < |log| :: log[k] != Spawn
  }

  ghost predicate Sound(s: Shared) {
    Safe(s.log, true) && (Calm(s.log) ==> !Active(s.worker))
  }

  lemma DriftKeepsSound(s: Shared, t: Shared)
    requires Sound(s) && Drifted(s, t)
    ensures Sound(t)
  {
    if t.log != s.log {
      assert !Calm(s.log);
      forall i, j | 0 <= i < j < |t.log| && t.log[i] == Flush(true) && t.log[j] == Access
        ensures exists k :: i < k < j && t.log[k] == Spawn
      {
        assert i < |s.log| && s.log[i] == Flush(true);
        var k :| i < k < |s.log| && s.log[k] == Spawn;
        assert t.log[k] == Spawn;
        if j < |s.log| {
          assert s.log[j] == Access;
          var m :| i < m < j && s.log[m] == Spawn;
          assert t.log[m] == Spawn;
        }
      }
    }
  }

  lemma EventKeepsSafe(log: seq<Event>, event: Event)
    requires Safe(log, true) && event != Access
    ensures Safe(log + [event], true)
  {
    var more := log + [event];
    forall i, j | 0 <= i < j < |more| && more[i] == Flush(true) && more[j] == Access
      ensures exists k :: i < k < j && more[k] == Spawn
    {
      var k :| i < k < j && log[k] == Spawn;
      assert more[k] == Spawn;
    }
  }

  lemma SpawnEndsCalm(log: seq<Event>)
    ensures !Calm(log + [Spawn])
  {
    var more := log + [Spawn];
    assert more[|log|] == Spawn;
  }

  lemma ForcedExit(w: World)
    ensures var f := Forced(w).shared; f.state == EXIT && Drifted(w.shared, f.(state := w.shared.state))
    ensures w.shared.state == EXIT && !Active(w.shared.worker) ==> Drifted(w.shared, Forced(w).shared)
  {
    hide Later;
    LaterDrifts(w);
    var read := Later(w);
    SetLosesToExit(read, EXIT);
  }

  lemma FlushKeepsSound(s: Shared, waited: bool)
    requires Sound(s) && (waited ==> !Active(s.worker))
    ensures Sound(s.(log := s.log + [Flush(waited)]))
  {
    EventKeepsSafe(s.log, Flush(waited));
    var more := s.log + [Flush(waited)];
    if Calm(more) && !waited {
      var i :| 0 <= i < |more| && more[i] == Flush(true) && forall k | i < k < |more| :: more[k] != Spawn;
      assert forall k | i < k < |s.log| :: more[k] == s.log[k];
      assert Calm(s.log);
    }
  }

  /** What stop(true) waits for: with time left, the worker is out of the loop. */
  lemma WaitedOut(w: World)
    ensures var (polled, left) := Polled(Set(w, WAIT_EXIT), 5);
            && Drifted(w.shared, polled.shared.(state := w.shared.state))
            && (left > 0 ==> polled.shared.state == EXIT && !Active(polled.shared.worker))
  {
    hide Later, Set, Polled;
    SetLosesToExit(w, WAIT_EXIT);
    PollDrifts(Set(w, WAIT_EXIT), 5);
  }

  /** stop always leaves the state at EXIT, and flushes after a wait only when the worker is out of the loop. */
  lemma StopKeepsSound(w: World, waitExit: bool)
    requires Sound(w.shared)
    ensures Sound(Stopped(w, waitExit).shared) && Stopped(w, waitExit).shared.state == EXIT
  {
    hide Later, Set, Forced, Polled, Safe, Calm;
    LaterDrifts(w);
    var first := Later(w);
    DriftKeepsSound(w.shared, first.shared);
    if first.shared.state != EXIT {
      var (polled, timeOut) := if waitExit then Polled(Set(first, WAIT_EXIT), 5) else (first, 5);
      if waitExit {
        WaitedOut(first);
        DriftKeepsSound(first.shared, polled.shared.(state := first.shared.state));
      }
      assert Sound(polled.shared);
      ForcedExit(polled);
      var forced := Forced(polled);
      DriftKeepsSound(polled.shared, forced.shared.(state := polled.shared.state));
      LaterDrifts(forced);
      DriftKeepsSound(forced.shared, Later(forced).shared);
      if timeOut > 0 {
        FlushKeepsSound(Later(forced).shared, waitExit);
      }
    }
  }

  /** Between calls a single controller never leaves an exit pending. */
  ghost predicate Settled(s: Shared) {
    Sound(s) && s.state != WAIT_EXIT
  }

  /** start reports success exactly when it leaves the state at RUNNING, and never has to give up waiting. */
  lemma StartKeepsSettled(w: World, known: bool, creatable: bool)
    requires Settled(w.shared)
    ensures var (after, status) := Started(w, known, creatable);
            && Settled(after.shared)
            && status != NO_INIT
            && (status == NO_ERROR <==> after.shared.state == RUNNING)
  {
    hide Later, Set, Awaited, Safe, Calm;
    LaterDrifts(w);
    var first := Later(w);
    DriftKeepsSound(w.shared, first.shared);
    if first.shared.state != RUNNING {
      AwaitDrifts(first, 10);
      LaterDrifts(Awaited(first, 10));
      var settled := Later(Awaited(first, 10));
      DriftsOn(first.shared, Awaited(first, 10).shared, settled.shared);
      DriftKeepsSound(first.shared, settled.shared);
      LaterDrifts(settled);
      var ran := Later(settled);
      DriftKeepsSound(settled.shared, ran.shared);
      if known && ran.shared.worker.Gone? && creatable {
        var spawned := ran.(shared := ran.shared.(worker := Readying, log := ran.shared.log + [Spawn]));
        EventKeepsSafe(ran.shared.log, Spawn);
        SpawnEndsCalm(ran.shared.log);
        SetToRunning(spawned);
        DriftKeepsSound(spawned.shared, Set(spawned, RUNNING).shared.(state := EXIT));
      }
    }
  }

  /** Right after a spawn the worker can only write what is already there, so the write of RUNNING is not lost. */
  lemma SetToRunning(w: World)
    requires w.shared.state == EXIT
    ensures var after := Set(w, RUNNING).shared; after.state == RUNNING && Drifted(w.shared, after.(state := EXIT))
  {
    hide Later;
    LaterDrifts(w);
    LaterDrifts(Later(w));
  }

  lemma {:induction false} RunsKeepSettled(w: World, calls: seq<Call>)
    requires Settled(w.shared)
    ensures Settled(After(w, calls).shared)
  {
    hide Started, Stopped, Sound;
    if calls != [] {
      RunsKeepSettled(w, calls[..|calls| - 1]);
      var before := After(w, calls[..|calls| - 1]);
      match calls[|calls| - 1]
      case Start(known, creatable) => StartKeepsSettled(before, known, creatable);
      case Stop(waitExit) => StopKeepsSound(before, waitExit);
    }
  }

  lemma FreshSound(schedule: seq<seq<Move>>)
    ensures Sound(Fresh(schedule).shared)
  {
  }

  /** Whatever is called, and however the worker's steps fall between, a flush that waited comes after the worker's
      last access. */
  lemma StopSafety(schedule: seq<seq<Move>>, calls: seq<Call>)
    ensures Safe(After(Fresh(schedule), calls).shared.log, true)
  {
    hide After;
    FreshSound(schedule);
    RunsKeepSettled(Fresh(schedule), calls);
  }

  lemma ThreeCalls(w: World, a: Call, b: Call, c: Call)
    ensures After(w, [a, b, c]) == Called(Called(Called(w, a), b), c)
  {
    hide Called;
    assert [a][..0] == [] && After(w, []) == w;
    assert After(w, [a]) == Called(w, a);
    assert [a, b][..1] == [a] && After(w, [a, b]) == Called(Called(w, a), b);
    assert [a, b, c][..2] == [a, b];
  }

  lemma IdleStart(schedule: seq<seq<Move>>)
    requires |schedule| >= 6 && forall i | 0 <= i < 6 :: schedule[i] == []
    ensures Started(Fresh(schedule), true, true).0 == World(Shared(RUNNING, Readying, [Spawn]), schedule[6..])
  {
  }

  lemma IdleStop(w: World)
    requires w.shared.state == RUNNING && |w.schedule| >= 5 && forall i | 0 <= i < 5 :: w.schedule[i] == []
    ensures Stopped(w, false) == World(Shared(EXIT, w.shared.worker, w.shared.log + [Flush(false)]), w.schedule[5..])
  {
  }

  /** Without the wait it does not: the worker can still touch the stream that was flushed. */
  lemma NoWaitUnsafe()
    ensures exists schedule, calls, i, j ::
              var log := After(Fresh(schedule), calls).shared.log;
              0 <= i < j < |log| && log[i] == Flush(false) && log[j] == Access && Spawn !in log[i..j]
  {
    hide After, Started, Stopped;
    var none: seq<Move> := [];
    var schedule := [none, none, none, none, none, none, none, none, none, none, none, [Touch]];
    var calls := [Start(true, true), Stop(false), Stop(false)];
    ThreeCalls(Fresh(schedule), calls[0], calls[1], calls[2]);
    IdleStart(schedule);
    IdleStop(Called(Fresh(schedule), calls[0]));
    var log := After(Fresh(schedule), calls).shared.log;
    LateTouch(Called(Called(Fresh(schedule), calls[0]), calls[1]));
    assert log == [Spawn, Flush(false), Access];
    assert 0 <= 1 < 2 < |log| && log[1] == Flush(false) && log[2] == Access && Spawn !in log[1..2];
  }

  lemma LateTouch(w: World)
    requires w.shared.state == EXIT && InLoop(w.shared.worker) && w.schedule == [[Touch]]
    ensures Stopped(w, false).shared.log == w.shared.log + [Access]
  {
    assert MovedAll(w.shared, [Touch]) == Moved(w.shared, Touch);
  }

  /** Stopping a worker that is at work is safe under every interleaving and all later calls exactly when the stop
      waits. */
  lemma StopExact(s: Shared, waitExit: bool)
    requires Settled(s) && s.state == RUNNING && InLoop(s.worker)
    ensures (forall schedule, calls ::
               Safe(After(World(s, schedule), [Stop(waitExit)] + calls).shared.log, waitExit))
            <==> waitExit
  {
    hide After, Sound;
    if waitExit {
      forall schedule, calls ensures Safe(After(World(s, schedule), [Stop(true)] + calls).shared.log, true) {
        RunsKeepSettled(World(s, schedule), [Stop(true)] + calls);
        SettledSafe(After(World(s, schedule), [Stop(true)] + calls).shared);
      }
    } else {
      TouchedAfterStop(s);
    }
  }

  lemma SettledSafe(s: Shared)
    requires Settled(s)
    ensures Safe(s.log, true)
  {
  }

  /** The schedule that shows it: the worker stands still during the stop, and then touches the stream. */
  lemma TouchedAfterStop(s: Shared)
    requires s.state == RUNNING && InLoop(s.worker)
    ensures exists schedule, calls :: !Safe(After(World(s, schedule), [Stop(false)] + calls).shared.log, false)
  {
    hide After, Stopped;
    var none: seq<Move> := [];
    var w := World(s, [none, none, none, none, none, [Touch]]);
    IdleStop(w);
    LateTouch(Stopped(w, false));
    var log := Stopped(Stopped(w, false), false).shared.log;
    TwoCalls(w, Stop(false), Stop(false));
    assert log == s.log + [Flush(false), Access];
    var i, j := |s.log|, |s.log| + 1;
    assert i < j < |log| && log[i] == Flush(false) && log[j] == Access;
    assert !Safe(After(w, [Stop(false)] + [Stop(false)]).shared.log, false);
  }

  lemma TwoCalls(w: World, a: Call, b: Call)
    ensures After(w, [a] + [b]) == Called(Called(w, a), b)
  {
    hide Called;
    assert [a][..0] == [] && After(w, []) == w;
    assert After(w, [a]) == Called(w, a);
    assert ([a] + [b])[..1] == [a];
  }

  // ----- A worker that leaves without a word -----

  /** The worker is out of its loop and will not write EXIT over such a state any more. */
  predicate Spent(worker: Worker, state: State) {
    worker.Gone? || worker.Returning? || (worker.Swapping? && worker.seen != state)
  }

  /** Nor over any state but EXIT. */
  predicate Finished(worker: Worker) {
    worker.Gone? || worker.Returning? || worker == Swapping(EXIT)
  }

  lemma {:induction false} SpentMoves(s: Shared, moves: seq<Move>)
    requires Spent(s.worker, s.state)
    ensures var t := MovedAll(s, moves);
      t.state == s.state && t.log == s.log && (t.worker == s.worker || t.worker.Gone? || t.worker.Returning?)
    decreases |moves|
  {
    if moves != [] {
      SpentMoves(Moved(s, moves[0]), moves[1..]);
    }
  }

  lemma FinishedLater(w: World)
    requires Finished(w.shared.worker) && w.shared.state != EXIT
    ensures var t := Later(w).shared;
      t.state == w.shared.state && t.log == w.shared.log && Finished(t.worker)
  {
    if w.schedule != [] {
      SpentMoves(w.shared, w.schedule[0]);
    }
  }

  lemma {:induction false} FinishedPolled(w: World, timeOut: nat)
    requires Finished(w.shared.worker) && w.shared.state != EXIT
    ensures var (p, left) := Polled(w, timeOut);
      p.shared.state == w.shared.state && p.shared.log == w.shared.log && Finished(p.shared.worker) && left == 0
    decreases timeOut
  {
    hide Later;
    FinishedLater(w);
    if timeOut > 0 {
      FinishedPolled(Later(w), timeOut - 1);
    }
  }

  /** A stop that waits for such a worker flushes nothing. */
  lemma WaitsInVain(w: World)
    requires w.shared.state == RUNNING && Finished(w.shared.worker)
    ensures Stopped(w, true).shared.log == w.shared.log
  {
    hide Later, Polled;
    FinishedLater(w);
    var first := Later(w);
    FinishedLater(first);
    FinishedLater(Later(first));
    var asked := Set(first, WAIT_EXIT);
    FinishedPolled(asked, 5);
    var polled := Polled(asked, 5).0;
    FinishedLater(polled);
    FinishedLater(Later(polled));
    FinishedLater(Later(Later(polled)));
    FinishedQuiet(Forced(polled));
  }

  lemma FinishedQuiet(w: World)
    requires Finished(w.shared.worker)
    ensures Later(w).shared.log == w.shared.log
  {
    if w.schedule != [] {
      SpentOrGone(w.shared, w.schedule[0]);
    }
  }

  lemma {:induction false} SpentOrGone(s: Shared, moves: seq<Move>)
    requires Finished(s.worker)
    ensures MovedAll(s, moves).log == s.log
    decreases |moves|
  {
    if moves != [] {
      SpentOrGone(Moved(s, moves[0]), moves[1..]);
    }
  }

  /** Nor does a start replace it: it reports success and makes no thread. */
  lemma QuitUnnoticed(w: World, known: bool, creatable: bool)
    requires w.shared.state == RUNNING && Finished(w.shared.worker)
    ensures var (after, status) := Started(w, known, creatable);
      status == NO_ERROR && after.shared.state == RUNNING && after.shared.log == w.shared.log
    ensures Stopped(w, true).shared.log == w.shared.log
  {
    hide Later, Stopped;
    FinishedLater(w);
    WaitsInVain(w);
  }

  predicate Flushes(s: Shared, schedule: seq<seq<Move>>) {
    FlushSince(Stopped(World(s, schedule), true).shared.log, |s.log|)
  }

  predicate FlushSince(log: seq<Event>, n: nat) {
    exists i :: n <= i < |log| && log[i] == Flush(true)
  }

  /** The way out of the loop for a worker that was asked to leave. */
  lemma WayOut(s: Shared)
    requires s.state == WAIT_EXIT && !Finished(s.worker) && s.worker != Swapping(RUNNING)
    ensures MovedAll(s, [Ready, Check, Read, Swap]) == s.(state := EXIT, worker := Returning)
  {
    var s1 := Moved(s, Ready);
    var s2 := Moved(s1, Check);
    var s3 := Moved(s2, Read);
    assert Moved(s3, Swap) == s.(state := EXIT, worker := Returning);
    assert MovedAll(s3, [Swap]) == Moved(s3, Swap);
    assert MovedAll(s2, [Read, Swap]) == MovedAll(s3, [Swap]);
    assert MovedAll(s1, [Check, Read, Swap]) == MovedAll(s2, [Read, Swap]);
  }

  lemma WaitedFor(s: Shared)
    requires s.state == RUNNING && !Finished(s.worker)
    ensures exists schedule :: Flushes(s, schedule)
  {
    hide MovedAll;
    var none: seq<Move> := [];
    if s.worker == Swapping(RUNNING) {
      var w := World(s, [none, none, [Swap]]);
      IdleMoves(s);
      SwapNow(s);
      var asked := Set(Later(w), WAIT_EXIT);
      assert asked == World(s.(state := EXIT, worker := Returning), []);
      assert Polled(asked, 5) == (asked, 5);
      assert Stopped(w, true).shared.log == s.log + [Flush(true)];
      LastOne(s.log);
      assert Flushes(s, [none, none, [Swap]]);
    } else {
      var way := [Ready, Check, Read, Swap];
      var w := World(s, [none, none, none, way]);
      var pending := s.(state := WAIT_EXIT);
      IdleMoves(s);
      WayOut(pending);
      var asked := Set(Later(w), WAIT_EXIT);
      assert asked == World(pending, [way]);
      var out := World(s.(state := EXIT, worker := Returning), []);
      assert Later(asked) == out;
      assert Polled(asked, 5) == (out, 5);
      assert Stopped(w, true).shared.log == s.log + [Flush(true)];
      LastOne(s.log);
      assert Flushes(s, [none, none, none, way]);
    }
  }

  lemma IdleMoves(s: Shared)
    ensures MovedAll(s, []) == s
  {
  }

  lemma SwapNow(s: Shared)
    requires s.worker == Swapping(s.state)
    ensures MovedAll(s, [Swap]) == s.(state := EXIT, worker := Returning)
  {
    assert MovedAll(s, [Swap]) == Moved(s, Swap);
  }

  lemma LastOne(log: seq<Event>)
    ensures FlushSince(log + [Flush(true)], |log|)
  {
    assert (log + [Flush(true)])[|log|] == Flush(true);
  }

  /** A stop that waits flushes under some schedule exactly if the worker is at work or about to write EXIT over a
      state that is not EXIT already. */
  lemma FlushExact(s: Shared)
    requires s.state == RUNNING
    ensures (exists schedule :: Flushes(s, schedule)) <==> !Finished(s.worker)
  {
    hide Stopped;
    if Finished(s.worker) {
      forall schedule ensures !Flushes(s, schedule) {
        WaitsInVain(World(s, schedule));
      }
    } else {
      WaitedFor(s);
    }
  }

  /** A start that reports success and leaves no worker at work. */
  predicate InVain(s: Shared, schedule: seq<seq<Move>>) {
    var (after, status) := Started(World(s, schedule), true, true);
    status == NO_ERROR && !InLoop(after.shared.worker)
  }

  /** From RUNNING a start is in vain under every schedule exactly if the worker is out of its loop and will not write
      EXIT over RUNNING. */
  lemma StartExact(s: Shared)
    requires s.state == RUNNING
    ensures (forall schedule :: InVain(s, schedule)) <==> Spent(s.worker, RUNNING)
  {
    if Spent(s.worker, RUNNING) {
      forall schedule ensures InVain(s, schedule) {
        if schedule != [] {
          SpentMoves(s, schedule[0]);
        }
      }
    } else if InLoop(s.worker) {
      assert !InVain(s, []);
    } else {
      GoneInTime(s);
      assert !InVain(s, [[Read, Swap, Die]]);
    }
  }

  /** A worker that does write EXIT can be gone before the state is read, and is then replaced. */
  lemma GoneInTime(s: Shared)
    requires s.state == RUNNING && (s.worker.Leaving? || s.worker == Swapping(RUNNING))
    ensures InLoop(Started(World(s, [[Read, Swap, Die]]), true, true).0.shared.worker)
  {
    var s1 := Moved(s, Read);
    var s2 := Moved(s1, Swap);
    assert Moved(s2, Die) == s.(state := EXIT, worker := Gone);
    assert MovedAll(s2, [Die]) == Moved(s2, Die);
    assert MovedAll(s1, [Swap, Die]) == MovedAll(s2, [Die]);
    assert MovedAll(s, [Read, Swap, Die]) == MovedAll(s1, [Swap, Die]);
    var first := World(s.(state := EXIT, worker := Gone), []);
    assert Later(World(s, [[Read, Swap, Die]])) == first;
    assert Awaited(first, 10) == first;
  }

  /** Both happen: a worker that is not ready, or whose driver gives no buffer, is gone after the first start, a second
      start reports success, and a stop that waits flushes nothing. */
  lemma QuitRun(how: seq<Move>)
    requires how == [NotReady, Die] || how == [Ready, Quit, Die]
    ensures var none: seq<Move> := [];
            var w := Started(Fresh([none, none, none, none, none, none, how]), true, true).0;
            && Started(w, true, true) == (World(Shared(RUNNING, Gone, [Spawn]), []), NO_ERROR)
            && Stopped(w, true).shared.log == [Spawn]
  {
    hide Stopped;
    var none: seq<Move> := [];
    var schedule := [none, none, none, none, none, none, how];
    IdleStart(schedule);
    var w := World(Shared(RUNNING, Readying, [Spawn]), [how]);
    assert Started(Fresh(schedule), true, true).0 == w;
    QuitMoves(w.shared, how);
    var gone := World(Shared(RUNNING, Gone, [Spawn]), []);
    assert Later(w) == gone;
    GoneFirst(w, gone);
  }

  lemma QuitMoves(s: Shared, how: seq<Move>)
    requires s.worker.Readying? && (how == [NotReady, Die] || how == [Ready, Quit, Die])
    ensures MovedAll(s, how) == s.(worker := Gone)
  {
    var s1 := Moved(s, how[0]);
    var s2 := Moved(s1, how[1]);
    assert MovedAll(s1, how[1..]) == MovedAll(s2, how[1..][1..]);
    if |how| == 3 {
      assert how[1..][1..] == [Die] && MovedAll(s2, [Die]) == Moved(s2, Die);
    } else {
      assert how[1..][1..] == [];
    }
  }

  /** What the worker does before the state is first read it might as well have done before the call. */
  lemma GoneFirst(w: World, gone: World)
    requires Later(w) == gone && gone.schedule == [] && gone.shared.state == RUNNING && gone.shared.worker.Gone?
    ensures Stopped(w, true).shared.log == gone.shared.log
  {
    hide Polled, Forced, Flushed, Set;
    assert Later(gone) == gone;
    assert Stopped(w, true) == Stopped(gone, true);
    WaitsInVain(gone);
  }

  // ----- A stop that timed out -----

  /** The controller has given the worker up, but it is still in its loop. */
  ghost predicate Orphan(s: Shared) {
    s.state == EXIT && InLoop(s.worker)
  }

  /** The worker meets no error from now on. */
  ghost predicate Healthy(moves: seq<Move>) {
    Fail !in moves && NotReady !in moves && Quit !in moves
  }

  ghost predicate AllHealthy(schedule: seq<seq<Move>>) {
    forall i | 0 <= i < |schedule| :: Healthy(schedule[i])
  }

  ghost predicate StillOrphan(before: World, after: World) {
    Orphan(after.shared) && AllHealthy(after.schedule) && OnlyAccesses(before.shared.log, after.shared.log)
  }

  lemma {:induction false} OrphanMoves(s: Shared, moves: seq<Move>)
    requires Orphan(s) && Healthy(moves)
    ensures Orphan(MovedAll(s, moves)) && OnlyAccesses(s.log, MovedAll(s, moves).log)
    decreases |moves|
  {
    if moves != [] {
      assert forall m :: m in moves[1..] ==> m in moves;
      OrphanMoves(Moved(s, moves[0]), moves[1..]);
    }
  }

  lemma OrphanLater(w: World)
    requires Orphan(w.shared) && AllHealthy(w.schedule)
    ensures StillOrphan(w, Later(w))
  {
    if w.schedule != [] {
      OrphanMoves(w.shared, w.schedule[0]);
    }
  }

  lemma OrphanCall(w: World, call: Call)
    requires Orphan(w.shared) && AllHealthy(w.schedule)
    ensures StillOrphan(w, Called(w, call))
  {
    hide Later, AllHealthy;
    OrphanLater(w);
    var first := Later(w);
    if call.Start? {
      OrphanLater(first);
      assert Awaited(first, 10) == Later(first);
      OrphanLater(Later(first));
      OrphanLater(Later(Later(first)));
    }
  }

  /** A stop that timed out is final: as long as the worker meets no error, no later call stops it, flushes its
      stream or starts a new one, while it goes on touching the stream. */
  lemma {:induction false} OrphanForever(w: World, calls: seq<Call>)
    requires Orphan(w.shared) && AllHealthy(w.schedule)
    ensures StillOrphan(w, After(w, calls))
  {
    hide Called, AllHealthy, Orphan;
    if calls != [] {
      OrphanForever(w, calls[..|calls| - 1]);
      OrphanCall(After(w, calls[..|calls| - 1]), calls[|calls| - 1]);
    }
  }

  /** A worker that makes these moves by itself; asked says whether it is asked to leave. */
  function Walk(worker: Worker, moves: seq<Move>, asked: bool): Worker
    decreases |moves|
  {
    if moves == [] || !InLoop(worker) then worker
    else
      Walk(Moved(Shared(if asked then WAIT_EXIT else RUNNING, worker, []), moves[0]).worker, moves[1..], asked)
  }

  /** The first few lists of a schedule. */
  function WalkAll(worker: Worker, schedule: seq<seq<Move>>, n: nat, asked: bool): Worker
    decreases n
  {
    if n == 0 || schedule == [] then worker else WalkAll(Walk(worker, schedule[0], asked), schedule[1..], n - 1, asked)
  }

  function Drop(schedule: seq<seq<Move>>, n: nat): seq<seq<Move>> {
    if n < |schedule| then schedule[n..] else []
  }

  /** The worker stays at work until the exit is asked for, while the stop polls for it and is about to force it, and
      up to the end. */
  predicate Stays(w: World) {
    var before := WalkAll(w.shared.worker, w.schedule, 3, false);
    var waited := WalkAll(before, Drop(w.schedule, 3), 9, true);
    InLoop(WalkAll(waited, Drop(w.schedule, 12), 1, false))
  }

  lemma {:induction false} WalkMoves(s: Shared, moves: seq<Move>, asked: bool)
    requires InLoop(s.worker) && asked == (s.state == WAIT_EXIT)
    ensures var t := MovedAll(s, moves);
      && (InLoop(t.worker) <==> InLoop(Walk(s.worker, moves, asked)))
      && (InLoop(t.worker) ==> t.worker == Walk(s.worker, moves, asked) && t.state == s.state)
    decreases |moves|
  {
    if moves != [] {
      var next := Moved(s, moves[0]);
      assert next.worker == Moved(Shared(if asked then WAIT_EXIT else RUNNING, s.worker, []), moves[0]).worker;
      if InLoop(next.worker) {
        WalkMoves(next, moves[1..], asked);
      } else {
        NeverBack(next, moves[1..]);
      }
    }
  }

  lemma {:induction false} NeverBack(s: Shared, moves: seq<Move>)
    requires !InLoop(s.worker)
    ensures !InLoop(MovedAll(s, moves).worker)
    decreases |moves|
  {
    if moves != [] {
      NeverBack(Moved(s, moves[0]), moves[1..]);
    }
  }

  /** One list of the schedule. */
  lemma WalkLater(w: World, asked: bool)
    requires InLoop(w.shared.worker) ==> asked == (w.shared.state == WAIT_EXIT)
    ensures var t, worker := Later(w), WalkAll(w.shared.worker, w.schedule, 1, asked);
      && t.schedule == Drop(w.schedule, 1)
      && (InLoop(t.shared.worker) <==> InLoop(worker))
      && (InLoop(worker) ==> InLoop(w.shared.worker) && t.shared.worker == worker && t.shared.state == w.shared.state)
  {
    if w.schedule != [] {
      assert WalkAll(w.shared.worker, w.schedule, 1, asked) == Walk(w.shared.worker, w.schedule[0], asked) by {
        assert WalkAll(Walk(w.shared.worker, w.schedule[0], asked), w.schedule[1..], 0, asked)
            == Walk(w.shared.worker, w.schedule[0], asked);
      }
      if InLoop(w.shared.worker) {
        WalkMoves(w.shared, w.schedule[0], asked);
      } else {
        NeverBack(w.shared, w.schedule[0]);
      }
    }
  }

  lemma {:induction false} WalkSplit(worker: Worker, schedule: seq<seq<Move>>, m: nat, n: nat, asked: bool)
    ensures WalkAll(worker, schedule, m + n, asked)
         == WalkAll(WalkAll(worker, schedule, m, asked), Drop(schedule, m), n, asked)
    ensures Drop(Drop(schedule, m), n) == Drop(schedule, m + n)
    decreases m
  {
    if m > 0 && schedule != [] {
      WalkSplit(Walk(worker, schedule[0], asked), schedule[1..], m - 1, n, asked);
      assert Drop(schedule, m) == Drop(schedule[1..], m - 1);
    }
  }

  function LaterN(w: World, n: nat): World {
    if n == 0 then w else Later(LaterN(w, n - 1))
  }

  lemma {:induction false} LaterFirst(w: World, n: nat)
    ensures LaterN(w, n + 1) == LaterN(Later(w), n)
  {
    hide Later;
    if n > 0 {
      LaterFirst(w, n - 1);
    }
  }

  /** What was asked of the worker when it was still in its loop shows in the state. */
  predicate Asks(s: Shared, asked: bool) {
    InLoop(s.worker) ==> asked == (s.state == WAIT_EXIT)
  }

  lemma {:induction false} WalkLaters(w: World, n: nat, asked: bool)
    requires Asks(w.shared, asked)
    ensures var t, worker := LaterN(w, n), WalkAll(w.shared.worker, w.schedule, n, asked);
      && t.schedule == Drop(w.schedule, n)
      && (InLoop(t.shared.worker) <==> InLoop(worker))
      && (InLoop(worker) ==> InLoop(w.shared.worker) && t.shared.worker == worker && t.shared.state == w.shared.state)
  {
    hide Later, InLoop;
    if n > 0 {
      WalkLaters(w, n - 1, asked);
      var before := LaterN(w, n - 1);
      WalkSplit(w.shared.worker, w.schedule, n - 1, 1, asked);
      WalkLater(before, asked);
    } else {
      WalkNone(w.shared.worker, w.schedule, asked);
    }
  }

  lemma WalkNone(worker: Worker, schedule: seq<seq<Move>>, asked: bool)
    ensures WalkAll(worker, schedule, 0, asked) == worker && Drop(schedule, 0) == schedule
  {
  }

  lemma LaterOut(w: World)
    requires !InLoop(w.shared.worker)
    ensures !InLoop(Later(w).shared.worker)
  {
    if w.schedule != [] {
      NeverBack(w.shared, w.schedule[0]);
    }
  }

  /** As long as the worker stays in its loop the state is the controller's. */
  lemma LaterIn(w: World)
    requires InLoop(Later(w).shared.worker)
    ensures InLoop(w.shared.worker) && Later(w).shared.state == w.shared.state
  {
    if !InLoop(w.shared.worker) {
      LaterOut(w);
    } else if w.schedule != [] {
      WalkMoves(w.shared, w.schedule[0], w.shared.state == WAIT_EXIT);
    }
  }

  lemma SetIn(w: World, state: State)
    ensures Set(w, state).shared.worker == LaterN(w, 2).shared.worker
    ensures InLoop(LaterN(w, 2).shared.worker) ==>
      Set(w, state) == World(LaterN(w, 2).shared.(state := state), LaterN(w, 2).schedule)
  {
    hide Later, InLoop;
    assert LaterN(w, 1) == Later(w) && LaterN(w, 2) == Later(Later(w));
    if InLoop(LaterN(w, 2).shared.worker) {
      LaterIn(Later(w));
    }
  }

  lemma {:induction false} PolledIn(w: World, timeOut: nat)
    requires InLoop(w.shared.worker) ==> w.shared.state == WAIT_EXIT
    ensures var t := LaterN(w, timeOut + 1);
      if InLoop(t.shared.worker) then Polled(w, timeOut) == (t, 0) else !InLoop(Polled(w, timeOut).0.shared.worker)
    decreases timeOut
  {
    hide Later, InLoop;
    var read := Later(w);
    LaterFirst(w, timeOut);
    if timeOut > 0 {
      if InLoop(read.shared.worker) {
        LaterIn(w);
      }
      PolledIn(read, timeOut - 1);
    }
    if InLoop(LaterN(w, timeOut + 1).shared.worker) {
      StillIn(read, timeOut);
      LaterIn(w);
    } else if !InLoop(read.shared.worker) {
      PolledOut(read, timeOut);
    }
  }

  lemma {:induction false} StillIn(w: World, n: nat)
    requires InLoop(LaterN(w, n).shared.worker)
    ensures InLoop(w.shared.worker) && LaterN(w, n).shared.state == w.shared.state
  {
    hide Later, InLoop;
    if n > 0 {
      LaterIn(LaterN(w, n - 1));
      StillIn(w, n - 1);
    }
  }

  lemma {:induction false} PolledOut(w: World, timeOut: nat)
    requires !InLoop(w.shared.worker)
    ensures !InLoop(Polled(w, timeOut).0.shared.worker)
    decreases timeOut
  {
    hide Later, InLoop;
    LaterOut(w);
    if timeOut > 0 {
      PolledOut(Later(w), timeOut - 1);
    }
  }

  lemma ForcedIn(w: World)
    requires InLoop(w.shared.worker) ==> w.shared.state == WAIT_EXIT
    ensures var t := LaterN(w, 3);
      if InLoop(t.shared.worker) then Forced(w) == World(t.shared.(state := EXIT), t.schedule)
      else !InLoop(Forced(w).shared.worker)
  {
    hide Later, InLoop, Set;
    var read := Later(w);
    SetIn(read, EXIT);
    LaterFirst(w, 2);
    if InLoop(LaterN(w, 3).shared.worker) {
      StillIn(read, 2);
    }
    if InLoop(read.shared.worker) {
      LaterIn(w);
    }
  }

  /** The stop, if the worker stays: three looks, the state set, nine looks, the state set, and the end. */
  function Kept(w: World): World {
    var before := LaterN(w, 3);
    var waited := LaterN(before.(shared := before.shared.(state := WAIT_EXIT)), 9);
    Later(waited.(shared := waited.shared.(state := EXIT)))
  }

  lemma ForcedOut(w: World)
    requires !InLoop(w.shared.worker)
    ensures !InLoop(Forced(w).shared.worker)
  {
    hide Later, InLoop;
    LaterOut(w);
    LaterOut(Later(w));
    LaterOut(Later(Later(w)));
  }

  lemma KeptIn(w: World)
    requires w.shared.state == RUNNING && InLoop(Kept(w).shared.worker)
    ensures Stopped(w, true) == Kept(w)
  {
    hide Later, InLoop, Set, Polled, Forced;
    var first := Later(w);
    LaterFirst(w, 2);
    var before := LaterN(first, 2);
    var asked := before.(shared := before.shared.(state := WAIT_EXIT));
    LaterSum(asked, 6, 3);
    var polled := LaterN(asked, 6);
    var waited := LaterN(polled, 3);
    LaterIn(waited.(shared := waited.shared.(state := EXIT)));
    StillIn(polled, 3);
    StillIn(asked, 6);
    StillIn(first, 2);
    LaterIn(w);
    SetIn(first, WAIT_EXIT);
    PolledIn(asked, 5);
    ForcedIn(polled);
  }

  lemma StoppedIn(w: World)
    requires w.shared.state == RUNNING && InLoop(Stopped(w, true).shared.worker)
    ensures Stopped(w, true) == Kept(w)
  {
    hide Later, InLoop, Set, Polled, Forced;
    var first := Later(w);
    if first.shared.state == EXIT {
      LaterIn(w);
    } else {
      LaterFirst(w, 2);
      SetIn(first, WAIT_EXIT);
      var set1, before := Set(first, WAIT_EXIT), LaterN(first, 2);
      var polled := Polled(set1, 5).0;
      var forced := Forced(polled);
      if !InLoop(forced.shared.worker) {
        LaterOut(forced);
      }
      if !InLoop(polled.shared.worker) {
        ForcedOut(polled);
      }
      if !InLoop(set1.shared.worker) {
        PolledOut(set1, 5);
      }
      PolledIn(set1, 5);
      StillIn(set1, 6);
      ForcedIn(polled);
      LaterSum(set1, 6, 3);
    }
  }

  lemma {:induction false} LaterSum(w: World, m: nat, n: nat)
    ensures LaterN(w, m + n) == LaterN(LaterN(w, m), n)
  {
    hide Later;
    if n > 0 {
      LaterSum(w, m, n - 1);
    }
  }

  /** A stop ends at EXIT, and with a worker at work it flushed nothing. */
  lemma EndsAtExit(w: World)
    ensures var end := Stopped(w, true).shared;
            end.state == EXIT && (Active(end.worker) ==> OnlyAccesses(w.shared.log, end.log))
  {
    hide Later, Set, Forced, Polled;
    LaterDrifts(w);
    var first := Later(w);
    if first.shared.state != EXIT {
      WaitedOut(first);
      var (polled, timeOut) := Polled(Set(first, WAIT_EXIT), 5);
      ForcedExit(polled);
      LaterDrifts(Forced(polled));
    }
  }

  /** A stop that waits gives its worker up exactly if the worker stays in its loop under the schedule, and then it
      flushes nothing. */
  lemma GivesUp(w: World)
    requires w.shared.state == RUNNING
    ensures var end := Stopped(w, true).shared;
            && (Orphan(end) <==> Stays(w))
            && (Stays(w) ==> OnlyAccesses(w.shared.log, end.log))
  {
    hide Later, Kept, Stopped, Stays;
    KeptStays(w);
    EndsAtExit(w);
    if InLoop(Kept(w).shared.worker) {
      KeptIn(w);
    } else if InLoop(Stopped(w, true).shared.worker) {
      StoppedIn(w);
    }
  }

  lemma KeptStays(w: World)
    requires w.shared.state == RUNNING
    ensures InLoop(Kept(w).shared.worker) <==> Stays(w)
    ensures InLoop(Kept(w).shared.worker) ==> Kept(w).shared.state == EXIT
  {
    hide Later, InLoop, WalkAll, Drop;
    WalkLaters(w, 3, false);
    var before := LaterN(w, 3);
    var asked := before.(shared := before.shared.(state := WAIT_EXIT));
    WalkLaters(asked, 9, true);
    var waited := LaterN(asked, 9);
    var end := waited.(shared := waited.shared.(state := EXIT));
    WalkSplit(w.shared.worker, w.schedule, 3, 9, false);
    WalkLater(end, false);
    var walked := WalkAll(w.shared.worker, w.schedule, 3, false);
    if !InLoop(walked) {
      WalkOut(walked, Drop(w.schedule, 3), 9, true);
    }
    var walked2 := WalkAll(walked, Drop(w.schedule, 3), 9, true);
    if !InLoop(walked2) {
      WalkOut(walked2, Drop(w.schedule, 12), 1, false);
    }
    if InLoop(Kept(w).shared.worker) {
      LaterIn(end);
    }
  }

  lemma {:induction false} WalkOut(worker: Worker, schedule: seq<seq<Move>>, n: nat, asked: bool)
    requires !InLoop(worker)
    ensures WalkAll(worker, schedule, n, asked) == worker
    decreases n
  {
    if n > 0 && schedule != [] {
      WalkOut(worker, schedule[1..], n - 1, asked);
    }
  }

  /** So a stop that ends like that is final, whatever is called next, as long as the worker meets no error. */
  lemma GivenUpForever(w: World, calls: seq<Call>)
    requires InLoop(Stopped(w, true).shared.worker) && AllHealthy(Stopped(w, true).schedule)
    ensures OnlyAccesses(w.shared.log, Stopped(w, true).shared.log)
    ensures StillOrphan(Stopped(w, true), After(Stopped(w, true), calls))
  {
    hide Stopped, After, AllHealthy;
    EndsAtExit(w);
    OrphanForever(Stopped(w, true), calls);
  }

  /** And a stop can time out: here the worker makes no step while it is waited for. */
  lemma TimedOutStop()
    ensures Orphan(After(Fresh([]), [Start(true, true), Stop(true)]).shared)
  {
    var w1 := Started(Fresh([]), true, true).0;
    assert w1 == World(Shared(RUNNING, Readying, [Spawn]), []);
    var w2 := Set(w1, WAIT_EXIT);
    PollIdle(w2, 5);
    assert Stopped(w1, true).shared.state == EXIT;
    assert [Start(true, true), Stop(true)][..1] == [Start(true, true)] && [Start(true, true)][..0] == [];
    assert After(Fresh([]), [Start(true, true)]) == w1;
  }

  lemma {:induction false} PollIdle(w: World, timeOut: nat)
    requires w.schedule == [] && w.shared.state != EXIT
    ensures Polled(w, timeOut) == (w, 0)
    decreases timeOut
  {
    if timeOut > 0 {
      PollIdle(w, timeOut - 1);
    }
  }
}
