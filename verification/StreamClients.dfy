/** The exchange of buffers between a stream and the capture driver (camera/PreviewThread.cpp and
    camera/RecordThread.cpp, without zoom). */
module StreamClients {
  import opened NxStream
  import opened Options

  /** A buffer in the driver, under the number it was queued with. */
  datatype Slot = Slot(index: nat, buffer: Buffer)

  /** The driver serves its buffers in order; it may refuse any request, and has nothing to deliver when it is empty. */
  class Driver {
    var fifo: seq<Slot>
    ghost var taken: seq<Slot>

    method ReqBuf(count: nat, willing: bool) returns (ok: bool)
      modifies this
      ensures ok == willing
      ensures ok ==> fifo == [] && taken == []
    {
      ok := willing;
      if ok {
        fifo, taken := [], [];
      }
    }

    method QBuf(index: nat, buffer: Buffer, willing: bool) returns (ok: bool)
      modifies this
      ensures ok == willing && taken == old(taken)
      ensures fifo == if ok then old(fifo) + [Slot(index, buffer)] else old(fifo)
    {
      ok := willing;
      if ok {
        fifo := fifo + [Slot(index, buffer)];
      }
    }

    method DqBuf(willing: bool) returns (ok: bool, index: nat)
      modifies this
      ensures ok == (willing && old(fifo) != [])
      ensures !ok ==> fifo == old(fifo) && taken == old(taken)
      ensures ok ==> index == old(fifo)[0].index && fifo == old(fifo)[1..] && taken == old(taken) + [old(fifo)[0]]
    {
      ok, index := willing && fifo != [], 0;
      if ok {
        index := fifo[0].index;
        fifo, taken := fifo[1..], taken + [fifo[0]];
      }
    }
  }

  /** What a thread is answered while it gets ready: what the window offers, whether formats and crop are set, and what
      the driver does with the request for buffers, with each of them, and with the start. */
  datatype Setup = Setup(offers: nat -> Option<Buffer>, formats: bool, grants: bool, takes: nat -> bool, starts: bool)

  /** The driver plays along for so many buffers. */
  ghost predicate Willing(a: Setup, count: nat) {
    a.grants && a.starts && forall i | 0 <= i < count :: a.takes(i)
  }

  /** What a thread is answered in one pass, in order: whether the driver delivers, whether an exit is pending, whether
      the window accepts the frame, whether an exit is pending then, what the window offers, whether the driver takes
      it, and whether an exit is pending at the end. */
  datatype Pass = Pass(
    delivers: bool, exitFirst: bool, accepts: bool, exitNext: bool, offer: Option<Buffer>, requeues: bool,
    exitLast: bool)

  /** The buffers in the driver, in order, are the stream's queue, and their numbers are those below count. */
  ghost predicate InStep(fifo: seq<Slot>, queued: seq<Buffer>, count: nat) {
    && |fifo| == |queued| == count
    && (forall i | 0 <= i < count :: fifo[i].buffer == queued[i] && fifo[i].index < count)
    && (forall i, j | 0 <= i < j < count :: fifo[i].index != fifo[j].index)
  }

  lemma HeadsMatch(fifo: seq<Slot>, queued: seq<Buffer>, count: nat)
    requires InStep(fifo, queued, count)
    ensures |fifo| == |queued| == count && (count > 0 ==> fifo[0].buffer == queued[0])
  {
  }

  /** A buffer out at the head and another in at the tail, under the number of the first. */
  lemma Exchanged(fifo: seq<Slot>, queued: seq<Buffer>, count: nat, buffer: Buffer)
    requires InStep(fifo, queued, count) && count > 0
    ensures InStep(fifo[1..] + [Slot(fifo[0].index, buffer)], queued[1..] + [buffer], count)
  {
  }

  function Below(n: nat): (s: set<nat>)
    ensures |s| == n && forall i: nat :: i in s <==> i < n
  {
    if n == 0 then {} else Below(n - 1) + {n - 1}
  }

  function IndicesOf(fifo: seq<Slot>): (s: set<nat>)
    ensures forall i | 0 <= i < |fifo| :: fifo[i].index in s
    ensures forall x | x in s :: exists i :: 0 <= i < |fifo| && fifo[i].index == x
  {
    if fifo == [] then {} else IndicesOf(fifo[..|fifo| - 1]) + {fifo[|fifo| - 1].index}
  }

  lemma {:induction false} IndicesCount(fifo: seq<Slot>)
    requires forall i, j | 0 <= i < j < |fifo| :: fifo[i].index != fifo[j].index
    ensures |IndicesOf(fifo)| == |fifo|
  {
    if fifo != [] {
      IndicesCount(fifo[..|fifo| - 1]);
      assert fifo[|fifo| - 1].index !in IndicesOf(fifo[..|fifo| - 1]);
    }
  }

  /** The numbers in the driver are all those below count, each once. */
  lemma EachIndexOnce(fifo: seq<Slot>, queued: seq<Buffer>, count: nat, index: nat)
    requires InStep(fifo, queued, count) && index < count
    ensures exists i :: 0 <= i < count && fifo[i].index == index
  {
    var used, room := IndicesOf(fifo), Below(count) - {index};
    IndicesCount(fifo);
    if index !in used {
      NoLarger(used, room);
    }
  }

  lemma NoLarger(x: set<nat>, y: set<nat>)
    requires x <= y
    ensures |x| <= |y|
  {
    assert y == x + (y - x);
  }

  function BuffersOf(slots: seq<Slot>): seq<Buffer> {
    if slots == [] then [] else BuffersOf(slots[..|slots| - 1]) + [slots[|slots| - 1].buffer]
  }

  /** The frames that reach the window: all that the driver delivered but the first few. */
  function Shown(taken: seq<Slot>, skip: nat): seq<Buffer> {
    if |taken| <= skip then [] else BuffersOf(taken[skip..])
  }

  lemma ShownNext(taken: seq<Slot>, slot: Slot, skip: nat)
    ensures Shown(taken + [slot], skip) == Shown(taken, skip) + if |taken| < skip then [] else [slot.buffer]
  {
    if |taken| >= skip {
      assert (taken + [slot])[skip..] == taken[skip..] + [slot];
      assert (taken[skip..] + [slot])[..|taken| - skip] == taken[skip..];
    }
  }

  /** Everyone plays along in one pass, and the window offers a buffer that it has at the time. */
  ghost predicate PlaysAlong(all: set<Buffer>, line: seq<Buffer>, count: nat, a: Pass, i: nat) {
    && a.delivers && !a.exitFirst && a.accepts && !a.exitNext && a.requeues && !a.exitLast
    && 0 < count && count + i < |line|
    && a.offer == Some(line[count + i]) && line[count + i] in all && line[count + i] !in line[i + 1..count + i]
  }

  /** Everyone plays along. The line holds all the buffers that pass through the stream: first its own, so many, and
      then what the window offers pass by pass. */
  ghost predicate Favourable(all: set<Buffer>, line: seq<Buffer>, count: nat, passes: seq<Pass>) {
    && count > 0 && |line| == count + |passes|
    && forall i: nat | i < |passes| :: PlaysAlong(all, line, count, passes[i], i)
  }

  lemma LineSize(all: set<Buffer>, line: seq<Buffer>, count: nat, passes: seq<Pass>)
    ensures Favourable(all, line, count, passes) ==> |line| == count + |passes|
  {
  }

  /** What makes a pass go on when everyone plays along and every buffer is registered. */
  lemma GoesOn(
    all: set<Buffer>, held: set<Buffer>, buffers: seq<Buffer>, line: seq<Buffer>, count: nat, passes: seq<Pass>, i: nat)
    requires Favourable(all, line, count, passes) && i < |passes| && all <= Elements(buffers)
    requires Apart(all, held, line[i..count + i], {})
    ensures var a, head := passes[i], line[i];
      && a.delivers && !a.exitFirst && a.accepts && !a.exitNext && a.requeues && !a.exitLast
      && head in buffers && Offers(a.offer, held + {head}) && a.offer.value in buffers
      && line[i..count + i][1..] + [a.offer.value] == line[i + 1..count + i + 1]
  {
    assert PlaysAlong(all, line, count, passes[i], i);
    var now := line[i..count + i];
    assert now == [now[0]] + line[i + 1..count + i];
    assert now[0] in Elements(now);
  }

  /** Everyone can play along for any number of passes: here the window offers what it has just got back. */
  lemma {:induction false} CanGoOn(all: set<Buffer>, queued: seq<Buffer>, n: nat)
    requires queued != [] && Distinct(queued) && forall b | b in queued :: b in all
    ensures exists line, passes ::
      |passes| == n && Favourable(all, line, |queued|, passes) && line[..|queued|] == queued
    decreases n
  {
    if n == 0 {
      assert Favourable(all, queued, |queued|, []) && queued[..|queued|] == queued;
    } else {
      var head, count := queued[0], |queued|;
      var turned := queued[1..] + [head];
      CanGoOn(all, turned, n - 1);
      var line, passes :| |passes| == n - 1 && Favourable(all, line, count, passes) && line[..count] == turned;
      var line1, passes1 := [head] + line, [Pass(true, false, true, false, Some(head), true, false)] + passes;
      TurnedLine(all, queued, line, passes);
      assert line1[..count] == queued;
    }
  }

  lemma TurnedLine(all: set<Buffer>, queued: seq<Buffer>, line: seq<Buffer>, passes: seq<Pass>)
    requires queued != [] && Distinct(queued) && queued[0] in all
    requires Favourable(all, line, |queued|, passes) && line[..|queued|] == queued[1..] + [queued[0]]
    ensures Favourable(all, [queued[0]] + line, |queued|,
                       [Pass(true, false, true, false, Some(queued[0]), true, false)] + passes)
  {
    var head, count := queued[0], |queued|;
    var line1, passes1 := [head] + line, [Pass(true, false, true, false, Some(head), true, false)] + passes;
    forall i: nat | i < |passes1| ensures PlaysAlong(all, line1, count, passes1[i], i) {
      if i == 0 {
        assert line1[count] == line[count - 1] == line[..count][count - 1] == head;
        assert line1[1..count] == line[..count][..count - 1] == queued[1..];
      } else {
        assert PlaysAlong(all, line, count, passes[i - 1], i - 1);
        assert line1[count + i] == line[count + i - 1];
        assert line1[i + 1..count + i] == line[i..count + i - 1];
      }
    }
  }

  lemma NothingDropped(
    all: set<Buffer>, held: set<Buffer>, queued: seq<Buffer>, dropped: set<Buffer>, buffers: seq<Buffer>)
    requires Apart(all, held, queued, dropped) && all <= Elements(buffers) && forall b | b in dropped :: b !in buffers
    ensures dropped == {}
  {
    assert forall b | b in dropped :: b in Elements(buffers);
  }

  ghost predicate InLine(taken: seq<Slot>, line: seq<Buffer>) {
    |taken| <= |line| && forall i | 0 <= i < |taken| :: taken[i].buffer == line[i]
  }

  /** So what is shown is the line without its first few buffers. */
  lemma ShownInLine(taken: seq<Slot>, line: seq<Buffer>, skip: nat)
    requires InLine(taken, line)
    ensures Shown(taken, skip) == if |taken| <= skip then [] else line[skip..|taken|]
  {
    if |taken| > skip {
      BuffersAre(taken[skip..], line[skip..|taken|]);
    }
  }

  lemma {:induction false} BuffersAre(slots: seq<Slot>, buffers: seq<Buffer>)
    requires |slots| == |buffers| && forall i | 0 <= i < |slots| :: slots[i].buffer == buffers[i]
    ensures BuffersOf(slots) == buffers
  {
    if slots != [] {
      var n := |slots| - 1;
      BuffersAre(slots[..n], buffers[..n]);
    }
  }

  lemma NoneShown(line: seq<Buffer>, skip: nat)
    ensures InLine([], line) && Shown([], skip) == []
  {
  }

  lemma InLineNext(taken: seq<Slot>, slot: Slot, line: seq<Buffer>)
    requires InLine(taken, line) && |taken| < |line| && slot.buffer == line[|taken|]
    ensures InLine(taken + [slot], line)
  {
  }

  /** The end of both readyToRun: the i-th oldest buffer of the stream goes in under the number i. */
  method QueueAll(driver: Driver, stream: NXStream, a: Setup) returns (ok: bool)
    modifies driver
    ensures ok <==> Willing(a, |stream.queue.Contents()|)
    ensures ok ==> driver.taken == [] && |driver.fifo| == |stream.queue.Contents()|
                   && forall k | 0 <= k < |driver.fifo| :: driver.fifo[k] == Slot(k, stream.queue.Contents()[k])
  {
    var queuedSize := stream.queue.Size();
    ok := driver.ReqBuf(queuedSize, a.grants);
    if !ok {
      return;
    }
    for i := 0 to queuedSize
      invariant driver.taken == [] && |driver.fifo| == i
      invariant forall k | 0 <= k < i :: a.takes(k) && driver.fifo[k] == Slot(k, stream.queue.Contents()[k])
    {
      var b := stream.queue.GetItem(queuedSize - i - 1);
      ok := driver.QBuf(i, b, a.takes(i));
      if !ok {
        return;
      }
    }
    ok := a.starts;
  }

  class PreviewThread {
    const stream: NXStream
    const driver: Driver
    const s5p6818: bool
    var initialSkipCount: nat

    constructor (stream: NXStream, driver: Driver, s5p6818: bool)
      ensures this.stream == stream && this.driver == driver && this.s5p6818 == s5p6818
    {
      this.stream, this.driver, this.s5p6818 := stream, driver, s5p6818;
    }

    ghost predicate Lockstep(count: nat)
      reads this, driver, stream, stream.queue
    {
      InStep(driver.fifo, stream.queue.Contents(), count)
    }

    method ReadyToRun(ghost all: set<Buffer>, a: Setup, skipFrames: nat) returns (ok: bool)
      requires stream.Conserved(all)
      modifies this, driver, stream, stream.window, stream.queue
      ensures stream.Conserved(all) && stream.DropsUnregistered() && stream.buffers == old(stream.buffers)
      ensures stream.window.published == old(stream.window.published)
      ensures Stocked(old(stream.bufferInited), old(stream.queue.Contents()), stream.queue.Contents(),
                      old(stream.window.held), stream.buffers, stream.maxBuffers, a.offers)
      ensures ok <==> a.formats && Willing(a, |stream.queue.Contents()|)
      ensures ok ==> Lockstep(|stream.queue.Contents()|) && driver.taken == [] && initialSkipCount == skipFrames
    {
      stream.InitBuffer(all, a.offers);
      ok := a.formats;
      if !ok {
        return;
      }
      ok := QueueAll(driver, stream, a);
      if ok {
        initialSkipCount := skipFrames;
      }
    }

    /** One pass. A delivered frame that is not skipped is published exactly if no exit is pending, its buffer is
        registered and the window accepts it, whatever happens then; and a pass goes on exactly if everyone plays
        along, or, on one chip, if the driver delivers nothing. */
    method ThreadLoop(ghost all: set<Buffer>, ghost count: nat, a: Pass) returns (again: bool)
      requires stream.Conserved(all) && Lockstep(count)
      modifies this, driver, stream, stream.window, stream.queue
      ensures stream.Conserved(all) && stream.DropsUnregistered() && stream.buffers == old(stream.buffers)
      ensures !a.delivers || count == 0 ==>
        && again == s5p6818 && driver.fifo == old(driver.fifo) && driver.taken == old(driver.taken)
        && stream.queue.Contents() == old(stream.queue.Contents()) && initialSkipCount == old(initialSkipCount)
        && unchanged(stream.window)
      ensures a.delivers && count > 0 ==>
        var head, skips := old(driver.fifo)[0], old(initialSkipCount);
        var registered := head.buffer in stream.buffers;
        var moved := skips > 0 || (!a.exitFirst && registered && a.accepts);
        && driver.taken == old(driver.taken) + [head]
        && initialSkipCount == (if skips > 0 then skips - 1 else 0)
        && stream.window.published == old(stream.window.published)
                                      + (if skips == 0 && moved then [head.buffer] else [])
        && var got := moved && !a.exitNext && a.offer.Some? && a.offer.value in stream.buffers
                      && a.offer.value in old(stream.window.held) + (if registered then {head.buffer} else {});
           && (again <==> got && a.requeues && !a.exitLast)
           && stream.queue.Contents() == old(stream.queue.Contents())[if skips == 0 && a.exitFirst then 0 else 1..]
                                         + (if got then [a.offer.value] else [])
           && driver.fifo == old(driver.fifo)[1..]
                             + (if got && a.requeues then [Slot(head.index, a.offer.value)] else [])
      ensures again ==> Lockstep(count)
    {
      hide InStep, Apart;
      ghost var fifo, queued := driver.fifo, stream.queue.Contents();
      HeadsMatch(fifo, queued, count);
      var ok, dqIdx := driver.DqBuf(a.delivers);
      if !ok {
        return s5p6818;
      }
      if initialSkipCount > 0 {
        initialSkipCount := initialSkipCount - 1;
        var _ := stream.CancelBuffer(all);
      } else {
        if a.exitFirst {
          return false;
        }
        var ret := stream.EnqueueBuffer(all, a.accepts);
        if ret != NO_ERROR {
          return false;
        }
      }
      if a.exitNext {
        return false;
      }
      var ret, buf := stream.DequeueBuffer(all, a.offer);
      if ret != NO_ERROR {
        return false;
      }
      ok := driver.QBuf(dqIdx, buf, a.requeues);
      if !ok {
        return false;
      }
      Exchanged(fifo, queued, count, buf);
      again := !a.exitLast;
    }

    /** Pass after pass, as long as they go on; and they all go on, the buffers coming in the order of the line, when
        everyone plays along and every buffer is registered. */
    method Passes(ghost all: set<Buffer>, ghost count: nat, passes: seq<Pass>, ghost line: seq<Buffer>)
      returns (alive: bool)
      requires stream.Conserved(all) && Lockstep(count) && driver.taken == []
      modifies this, driver, stream, stream.window, stream.queue
      ensures stream.Conserved(all) && stream.buffers == old(stream.buffers)
      ensures alive ==>
        && Lockstep(count) && |driver.taken| <= |passes| && (!s5p6818 ==> |driver.taken| == |passes|)
        && stream.window.published == old(stream.window.published) + Shown(driver.taken, old(initialSkipCount))
      ensures
        && Favourable(all, line, count, passes) && line[..count] == old(stream.queue.Contents())
        && all <= Elements(stream.buffers) && old(stream.dropped) == {} ==>
          alive && |driver.taken| == |passes| && InLine(driver.taken, line)
    {
      hide InStep, Apart, Favourable, InLine, Shown, Offers, Elements;
      LineSize(all, line, count, passes);
      ghost var skips := initialSkipCount;
      ghost var good :=
        && Favourable(all, line, count, passes) && line[..count] == stream.queue.Contents()
        && all <= Elements(stream.buffers) && stream.dropped == {};
      alive := true;
      NoneShown(line, skips);
      for i := 0 to |passes|
        invariant stream.Conserved(all) && Lockstep(count) && alive && stream.buffers == old(stream.buffers)
        invariant stream.window.published == old(stream.window.published) + Shown(driver.taken, skips)
        invariant initialSkipCount == if |driver.taken| < skips then skips - |driver.taken| else 0
        invariant |driver.taken| <= i && (!s5p6818 ==> |driver.taken| == i)
        invariant good ==>
          && |line| == count + |passes| && |driver.taken| == i && InLine(driver.taken, line) && stream.dropped == {}
          && stream.queue.Contents() == line[i..count + i]
      {
        HeadsMatch(driver.fifo, stream.queue.Contents(), count);
        if count > 0 {
          ShownNext(driver.taken, driver.fifo[0], skips);
        }
        if good {
          GoesOn(all, stream.window.held, stream.buffers, line, count, passes, i);
          InLineNext(driver.taken, driver.fifo[0], line);
        }
        alive := ThreadLoop(all, count, passes[i]);
        if good {
          NothingDropped(
            all, stream.window.held, stream.queue.Contents(), stream.dropped, stream.buffers);
        }
        if !alive {
          return;
        }
      }
    }

    /** readyToRun and then so many passes, or fewer when the worker leaves. When everyone plays along it does not
        leave, and every frame after the first few is published, in the order of the line. */
    method Run(ghost all: set<Buffer>, a: Setup, skipFrames: nat, passes: seq<Pass>, ghost count: nat,
      ghost line: seq<Buffer>) returns (alive: bool)
      requires stream.Conserved(all)
      modifies this, driver, stream, stream.window, stream.queue
      ensures stream.Conserved(all)
      ensures alive ==>
        && Lockstep(|stream.queue.Contents()|)
        && stream.window.published == old(stream.window.published) + Shown(driver.taken, skipFrames)
        && |driver.taken| <= |passes| && (!s5p6818 ==> |driver.taken| == |passes|)
      ensures
        && a.formats && Willing(a, count) && Favourable(all, line, count, passes)
        && Stocked(old(stream.bufferInited), old(stream.queue.Contents()), line[..count], old(stream.window.held),
                   stream.buffers, stream.maxBuffers, a.offers)
        && all <= Elements(stream.buffers) && old(stream.dropped) == {} ==>
          && alive && |driver.taken| == |passes| && InLine(driver.taken, line)
          && stream.window.published
             == old(stream.window.published) + if |passes| <= skipFrames then [] else line[skipFrames..|passes|]
    {
      hide Apart, Favourable, InLine, Shown, Elements, Willing, Stocked, InStep;
      LineSize(all, line, count, passes);
      ghost var inited, before, held := stream.bufferInited, stream.queue.Contents(), stream.window.held;
      alive := ReadyToRun(all, a, skipFrames);
      ghost var queued := stream.queue.Contents();
      ghost var buffers, max := stream.buffers, stream.maxBuffers;
      if |line| == count + |passes| && Stocked(inited, before, line[..count], held, buffers, max, a.offers) {
        StockedOnce(inited, before, line[..count], queued, held, buffers, max, a.offers);
      }
      if all <= Elements(stream.buffers) && old(stream.dropped) == {} {
        NothingDropped(all, stream.window.held, queued, stream.dropped, stream.buffers);
      }
      if alive {
        alive := Passes(all, |queued|, passes, line);
        if alive {
          HeadsMatch(driver.fifo, stream.queue.Contents(), |queued|);
        }
        if InLine(driver.taken, line) {
          ShownInLine(driver.taken, line, skipFrames);
        }
      }
    }
  }

  class RecordThread {
    const stream: NXStream
    const driver: Driver
    var initialSkipCount: nat

    constructor (stream: NXStream, driver: Driver)
      ensures this.stream == stream && this.driver == driver
    {
      this.stream, this.driver := stream, driver;
    }

    ghost predicate Lockstep(count: nat)
      reads this, driver, stream, stream.queue
    {
      InStep(driver.fifo, stream.queue.Contents(), count)
    }

    method ReadyToRun(ghost all: set<Buffer>, a: Setup, skipFrames: nat, previewRunning: bool) returns (ok: bool)
      requires stream.Conserved(all)
      modifies this, driver, stream, stream.window, stream.queue
      ensures stream.Conserved(all) && stream.DropsUnregistered() && stream.buffers == old(stream.buffers)
      ensures stream.window.published == old(stream.window.published)
      ensures Stocked(old(stream.bufferInited), old(stream.queue.Contents()), stream.queue.Contents(),
                      old(stream.window.held), stream.buffers, stream.maxBuffers, a.offers)
      ensures ok <==> a.formats && previewRunning && Willing(a, |stream.queue.Contents()|)
      ensures ok ==> Lockstep(|stream.queue.Contents()|) && driver.taken == [] && initialSkipCount == skipFrames
    {
      stream.InitBuffer(all, a.offers);
      ok := a.formats;
      if !ok || !previewRunning {
        return false;
      }
      ok := QueueAll(driver, stream, a);
      if ok {
        initialSkipCount := skipFrames;
      }
    }

    /** One pass; here the state word is read right after the driver delivers, and nowhere else. With an exit pending
        nothing more is done; else a frame that is not skipped is published exactly if its buffer is registered and the
        window accepts it, whatever happens then. */
    method ThreadLoop(ghost all: set<Buffer>, ghost count: nat, a: Pass) returns (again: bool)
      requires stream.Conserved(all) && Lockstep(count)
      modifies this, driver, stream, stream.window, stream.queue
      ensures stream.Conserved(all) && stream.DropsUnregistered() && stream.buffers == old(stream.buffers)
      ensures !a.delivers || count == 0 ==> !again && driver.taken == old(driver.taken)
      ensures !a.delivers || count == 0 || a.exitFirst ==>
        && !again && stream.queue.Contents() == old(stream.queue.Contents())
        && initialSkipCount == old(initialSkipCount) && unchanged(stream.window)
      ensures a.delivers && count > 0 ==> driver.taken == old(driver.taken) + [old(driver.fifo)[0]]
      ensures a.delivers && count > 0 && !a.exitFirst ==>
        var head, skips := old(driver.fifo)[0], old(initialSkipCount);
        var registered := head.buffer in stream.buffers;
        var moved := skips > 0 || (registered && a.accepts);
        && initialSkipCount == (if skips > 0 then skips - 1 else 0)
        && stream.window.published == old(stream.window.published)
                                      + (if skips == 0 && moved then [head.buffer] else [])
        && var got := moved && a.offer.Some? && a.offer.value in stream.buffers
                      && a.offer.value in old(stream.window.held) + (if registered then {head.buffer} else {});
           && (again <==> got && a.requeues)
           && stream.queue.Contents() == old(stream.queue.Contents())[1..] + (if got then [a.offer.value] else [])
           && driver.fifo == old(driver.fifo)[1..]
                             + (if got && a.requeues then [Slot(head.index, a.offer.value)] else [])
      ensures again ==> Lockstep(count)
    {
      hide InStep, Apart;
      ghost var fifo, queued := driver.fifo, stream.queue.Contents();
      HeadsMatch(fifo, queued, count);
      var ok, dqIdx := driver.DqBuf(a.delivers);
      if !ok {
        return false;
      }
      if a.exitFirst {
        return false;
      }
      if initialSkipCount > 0 {
        initialSkipCount := initialSkipCount - 1;
        var _ := stream.CancelBuffer(all);
      } else {
        var ret := stream.EnqueueBuffer(all, a.accepts);
        if ret != NO_ERROR {
          return false;
        }
      }
      var ret, buf := stream.DequeueBuffer(all, a.offer);
      if ret != NO_ERROR {
        return false;
      }
      ok := driver.QBuf(dqIdx, buf, a.requeues);
      if !ok {
        return false;
      }
      Exchanged(fifo, queued, count, buf);
      again := true;
    }

    /** Pass after pass, as long as they go on; and they all go on, the buffers coming in the order of the line, when
        everyone plays along and every buffer is registered. */
    method Passes(ghost all: set<Buffer>, ghost count: nat, passes: seq<Pass>, ghost line: seq<Buffer>)
      returns (alive: bool)
      requires stream.Conserved(all) && Lockstep(count) && driver.taken == []
      modifies this, driver, stream, stream.window, stream.queue
      ensures stream.Conserved(all) && stream.buffers == old(stream.buffers)
      ensures alive ==>
        && Lockstep(count) && |driver.taken| == |passes|
        && stream.window.published == old(stream.window.published) + Shown(driver.taken, old(initialSkipCount))
      ensures
        && Favourable(all, line, count, passes) && line[..count] == old(stream.queue.Contents())
        && all <= Elements(stream.buffers) && old(stream.dropped) == {} ==>
          alive && InLine(driver.taken, line)
    {
      hide InStep, Apart, Favourable, InLine, Shown, Offers, Elements;
      LineSize(all, line, count, passes);
      ghost var skips := initialSkipCount;
      ghost var good :=
        && Favourable(all, line, count, passes) && line[..count] == stream.queue.Contents()
        && all <= Elements(stream.buffers) && stream.dropped == {};
      alive := true;
      NoneShown(line, skips);
      for i := 0 to |passes|
        invariant stream.Conserved(all) && Lockstep(count) && alive && stream.buffers == old(stream.buffers)
        invariant stream.window.published == old(stream.window.published) + Shown(driver.taken, skips)
        invariant initialSkipCount == if |driver.taken| < skips then skips - |driver.taken| else 0
        invariant |driver.taken| == i
        invariant good ==>
          && |line| == count + |passes| && InLine(driver.taken, line) && stream.dropped == {}
          && stream.queue.Contents() == line[i..count + i]
      {
        HeadsMatch(driver.fifo, stream.queue.Contents(), count);
        if count > 0 {
          ShownNext(driver.taken, driver.fifo[0], skips);
        }
        if good {
          GoesOn(all, stream.window.held, stream.buffers, line, count, passes, i);
          InLineNext(driver.taken, driver.fifo[0], line);
        }
        alive := ThreadLoop(all, count, passes[i]);
        if good {
          NothingDropped(
            all, stream.window.held, stream.queue.Contents(), stream.dropped, stream.buffers);
        }
        if !alive {
          return;
        }
      }
    }

    /** readyToRun and then so many passes, or fewer when the worker leaves. When everyone plays along it does not
        leave, and every frame after the first few is published, in the order of the line. */
    method Run(ghost all: set<Buffer>, a: Setup, skipFrames: nat, previewRunning: bool,
      passes: seq<Pass>, ghost count: nat, ghost line: seq<Buffer>) returns (alive: bool)
      requires stream.Conserved(all)
      modifies this, driver, stream, stream.window, stream.queue
      ensures stream.Conserved(all)
      ensures alive ==>
        && Lockstep(|stream.queue.Contents()|)
        && stream.window.published == old(stream.window.published) + Shown(driver.taken, skipFrames)
        && |driver.taken| == |passes|
      ensures
        && a.formats && previewRunning && Willing(a, count) && Favourable(all, line, count, passes)
        && Stocked(old(stream.bufferInited), old(stream.queue.Contents()), line[..count], old(stream.window.held),
                   stream.buffers, stream.maxBuffers, a.offers)
        && all <= Elements(stream.buffers) && old(stream.dropped) == {} ==>
          && alive && |driver.taken| == |passes| && InLine(driver.taken, line)
          && stream.window.published
             == old(stream.window.published) + if |passes| <= skipFrames then [] else line[skipFrames..|passes|]
    {
      hide Apart, Favourable, InLine, Shown, Elements, Willing, Stocked, InStep;
      LineSize(all, line, count, passes);
      ghost var inited, before, held := stream.bufferInited, stream.queue.Contents(), stream.window.held;
      alive := ReadyToRun(all, a, skipFrames, previewRunning);
      ghost var queued := stream.queue.Contents();
      ghost var buffers, max := stream.buffers, stream.maxBuffers;
      if |line| == count + |passes| && Stocked(inited, before, line[..count], held, buffers, max, a.offers) {
        StockedOnce(inited, before, line[..count], queued, held, buffers, max, a.offers);
      }
      if all <= Elements(stream.buffers) && old(stream.dropped) == {} {
        NothingDropped(all, stream.window.held, queued, stream.dropped, stream.buffers);
      }
      if alive {
        alive := Passes(all, |queued|, passes, line);
        if alive {
          HeadsMatch(driver.fifo, stream.queue.Contents(), |queued|);
        }
        if InLine(driver.taken, line) {
          ShownInLine(driver.taken, line, skipFrames);
        }
      }
    }
  }

  /** A session and the flush that ends it: every buffer is back with the window, but for those it handed out
      without having registered them. */
  method Session(
    thread: PreviewThread, ghost all: set<Buffer>, a: Setup, skipFrames: nat, passes: seq<Pass>)
    requires thread.stream.Conserved(all)
    modifies thread, thread.driver, thread.stream, thread.stream.window, thread.stream.queue
    ensures thread.stream.queue.Contents() == [] && thread.stream.window.held == all - thread.stream.dropped
  {
    var _ := thread.Run(all, a, skipFrames, passes, 0, []);
    thread.stream.FlushBuffer(all);
  }
}
