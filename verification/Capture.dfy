/** Delivery of captured audio (audio/audio_hw.c); the hardware always captures two channels. */
module Capture {
  import opened CaptureRamp

  const ENODEV := 19
  const ENOMEM := 12

  /** The first of every two samples. */
  function Left(s: seq<Sample>): (r: seq<Sample>)
    ensures |r| == |s| / 2
  {
    if |s| < 2 then [] else Left(s[..|s| - 2]) + [s[|s| - 2]]
  }

  lemma LeftLast(s: seq<Sample>)
    requires |s| >= 2
    ensures Left(s) == Left(s[..|s| - 2]) + [s[|s| - 2]]
  {
  }

  lemma {:induction false} LeftAppend(x: seq<Sample>, y: seq<Sample>)
    requires |x| % 2 == 0 && |y| % 2 == 0
    ensures Left(x + y) == Left(x) + Left(y)
  {
    if y == [] {
      assert x + y == x;
    } else {
      hide Left;
      var front := y[..|y| - 2];
      LeftAppend(x, front);
      var n := |x + y| - 2;
      LeftLast(x + y);
      LeftLast(y);
      assert (x + y)[..n] == x + front && (x + y)[n] == y[|y| - 2];
    }
  }

  lemma {:induction false} LeftAt(s: seq<Sample>, k: nat)
    requires k < |s| / 2 && |s| % 2 == 0
    ensures Left(s)[k] == s[2 * k]
  {
    if k < |s| / 2 - 1 {
      LeftAt(s[..|s| - 2], k);
    }
  }

  /** The left sample of a frame. */
  function First(s: seq<Sample>, k: nat): Sample
    requires 2 * k < |s|
  {
    s[2 * k]
  }

  lemma LeftOf(left: seq<Sample>, s: seq<Sample>)
    requires |s| == 2 * |left| && forall k | 0 <= k < |left| :: left[k] == First(s, k)
    ensures left == Left(s)
  {
    hide Left;
    forall k | 0 <= k < |left| ensures left[k] == Left(s)[k] {
      LeftAt(s, k);
    }
  }

  lemma Cut(s: seq<Sample>, from: nat, mid: nat, to: nat)
    requires from <= mid <= to <= |s|
    ensures s[from..to] == s[from..mid] + s[mid..to] && s[from..to][..mid - from] == s[from..mid]
  {
  }

  /** The input device, and all that it is ever going to capture. */
  class Pcm {
    const sound: nat -> Sample
    var captured: seq<Sample>

    constructor (sound: nat -> Sample)
      ensures captured == [] && this.sound == sound
    {
      this.sound, captured := sound, [];
    }

    /** pcm_read: refuses, or fills the buffer with what comes in next. */
    method Read(buffer: array<Sample>, count: nat, willing: bool) returns (status: int)
      requires count <= buffer.Length
      modifies this, buffer
      ensures status <= 0 && (status == 0 <==> willing)
      ensures !willing ==> captured == old(captured)
      ensures willing ==>
        && captured == old(captured) + buffer[..count]
        && (forall k | 0 <= k < count :: buffer[k] == sound(|old(captured)| + k))
        && forall k | count <= k < buffer.Length :: buffer[k] == old(buffer[k])
    {
      for i := 0 to count
        invariant captured == old(captured)
        invariant willing ==> forall k | 0 <= k < i :: buffer[k] == sound(|captured| + k)
        invariant forall k | count <= k < buffer.Length :: buffer[k] == old(buffer[k])
      {
        if willing {
          buffer[i] := sound(|captured| + i);
        } else {
          buffer[i] := *;
        }
      }
      if willing {
        captured := captured + buffer[..count];
        return 0;
      }
      status :| status < 0;
    }
  }

  /** What the card answers to pcm_open. */
  datatype Opened = Busy | NoHandle | NotReady(device: Pcm) | Ready(device: Pcm)
  {
    ghost function Devices(): set<Pcm> {
      if NotReady? || Ready? then {device} else {}
    }
  }

  /** A request of the resampler: how much it asks for, how much it uses, and whether the card would be read then. */
  datatype Request = Request(wanted: nat, used: nat, willing: bool)

  /** What the resampler does in one call: its requests, and how many frames it makes. */
  datatype Turn = Turn(requests: seq<Request>, made: nat)

  /** The resampling library: what it was fed since its last reset, and its next calls; after these it asks for
      nothing more. */
  class Resampler {
    ghost var fed: seq<Sample>
    var turns: seq<Turn>

    constructor (turns: seq<Turn>)
      ensures fed == [] && this.turns == turns
    {
      fed, this.turns := [], turns;
    }

    ghost method Reset()
      modifies this`fed
      ensures fed == []
    {
      fed := [];
    }
  }

  // ----- When a read is served -----

  /** The frames that wait for the resampler, and whether the last read of the card went well. */
  datatype Waiting = Waiting(frames: nat, ok: bool)

  function Min(a: nat, b: nat): nat {
    if a < b then a else b
  }

  /** A request reads the card only if nothing waits. */
  function Asked(w: Waiting, r: Request, present: bool, period: nat): Waiting {
    if !present then w.(ok := false)
    else if w.frames == 0 && !r.willing then Waiting(0, false)
    else
      var frames := if w.frames == 0 then period else w.frames;
      Waiting(frames - Min(r.used, Min(r.wanted, frames)), true)
  }

  function AskedAll(w: Waiting, requests: seq<Request>, present: bool, period: nat): Waiting {
    if requests == [] then w
    else Asked(AskedAll(w, requests[..|requests| - 1], present, period), requests[|requests| - 1], present, period)
  }

  function Next(turns: seq<Turn>): Turn {
    if turns == [] then Turn([], 0) else turns[0]
  }

  function Rest(turns: seq<Turn>): seq<Turn> {
    if turns == [] then [] else turns[1..]
  }

  /** The frames a call of the resampler makes: no more than are wanted, and some unless a read failed. */
  function Made(turn: Turn, wanted: nat, ok: bool): (n: nat)
    ensures n <= wanted && (ok && wanted > 0 ==> n > 0)
  {
    if turn.made > wanted || (ok && turn.made == 0) then wanted else turn.made
  }

  /** Whether so many frames are made before some call of the resampler ends with its last read refused. */
  function Served(w: Waiting, frames: nat, turns: seq<Turn>, present: bool, period: nat): bool
    decreases frames
  {
    frames == 0
    || var now := AskedAll(w, Next(turns).requests, present, period);
       now.ok && Served(now, frames - Made(Next(turns), frames, true), Rest(turns), present, period)
  }

  class StreamIn {
    const resampler: Resampler?
    const buffer: array<Sample>
    const period: nat
    const mono: bool
    const requestRate: nat
    const ramp: Ramp
    var pcm: Pcm?
    var standby: bool
    var framesIn: nat
    var readStatus: int

    /** The samples in so many frames. */
    function Span(frames: int): int {
      if mono then frames else 2 * frames
    }

    /** What a client should get of what was captured. */
    function Wanted(captured: seq<Sample>): seq<Sample> {
      if mono then Left(captured) else captured
    }

    /** The frames that wait in the buffer. */
    ghost function Pending(): seq<Sample>
      requires framesIn <= period && 2 * period <= buffer.Length
      reads this, buffer
    {
      buffer[Span(period - framesIn)..Span(period)]
    }

    /** What the resampler was fed and what still waits for it is exactly what was captured. */
    ghost predicate Faithful(r: Resampler, device: Pcm)
      requires framesIn <= period && 2 * period <= buffer.Length
      reads this, buffer, r, device
    {
      |device.captured| % 2 == 0 && r.fed + Pending() == Wanted(device.captured)
    }

    ghost predicate Valid()
      reads this, buffer, pcm, resampler
    {
      && 0 < period && 2 * period <= buffer.Length && framesIn <= period
      && (!standby && pcm != null && resampler != null ==> Faithful(resampler, pcm))
      && (!standby && pcm != null && framesIn > 0 ==> readStatus == 0)
      && (!standby && pcm == null ==> framesIn == 0)
      && readStatus <= 0
    }

    /** What the provider goes by. */
    function Waits(): Waiting
      reads this
    {
      Waiting(framesIn, readStatus == 0)
    }

    /** Nothing is refused: the start is answered, and so are the reads. */
    function Answered(card: Opened, willing: bool, frames: nat): bool
      reads this, resampler
    {
      var present := if standby then card.Ready? else pcm != null;
      if standby && (card.Busy? || card.NotReady?) then false
      else if resampler != null then
        Served(if standby then Waits().(frames := 0) else Waits(), frames, resampler.turns, present, period)
      else if present then willing
      else frames == 0
    }

    constructor (period: nat, mono: bool, requestRate: nat, resampler: Resampler?)
      requires period > 0 && requestRate >= 10
      ensures Valid() && ramp.Valid() && standby && pcm == null && fresh(buffer) && fresh(ramp)
      ensures this.period == period && this.mono == ramp.mono == mono
      ensures this.requestRate == requestRate && this.resampler == resampler
    {
      this.period, this.mono, this.requestRate, this.resampler := period, mono, requestRate, resampler;
      pcm, standby, framesIn, readStatus := null, true, 0, 0;
      buffer := new Sample[2 * period];
      ramp := new Ramp(mono);
    }

    /** pcm_input_start, and the end of standby in in_read when it succeeds. */
    method Start(card: Opened) returns (ret: int)
      requires Valid() && standby && requestRate >= 10 && (card.Ready? ==> card.device.captured == [])
      modifies this`pcm, this`standby, this`framesIn, resampler, ramp
      ensures Valid() && ret <= 0 && standby == (ret < 0) == (card.Busy? || card.NotReady?)
      ensures !standby ==> framesIn == 0 && pcm == if card.Ready? then card.device else null
      ensures resampler != null ==> resampler.turns == old(resampler.turns) && (!standby ==> resampler.fed == [])
      ensures !standby ==> ramp.Valid() && ramp.plan == Started(ramp.mono, requestRate) && ramp.Done() == 0
      ensures standby ==> unchanged(ramp)
    {
      match card {
        case Busy => return -1;
        case NotReady(device) =>
          pcm := device;
          return -ENOMEM;
        case NoHandle => pcm := null;
        case Ready(device) => pcm := device;
      }
      if resampler != null {
        resampler.Reset();
      }
      framesIn, standby := 0, false;
      ramp.Start(requestRate);
      ret := 0;
    }

    /** do_input_standby */
    method Standby()
      requires Valid()
      modifies this`pcm, this`standby
      ensures Valid() && standby && (!old(standby) ==> pcm == null)
    {
      if !standby {
        pcm, standby := null, true;
      }
    }

    /** Stereo to mono in place; the loop starts at one because the first sample stays where it is. */
    method DropRight()
      requires period > 0 && 2 * period <= buffer.Length
      modifies buffer
      ensures buffer[..period] == Left(old(buffer[..2 * period]))
    {
      ghost var raw := buffer[..2 * period];
      for i := 1 to period
        invariant forall j | 0 <= j < i :: buffer[j] == First(raw, j)
        invariant forall j | i <= j < 2 * period :: buffer[j] == raw[j]
      {
        buffer[i] := buffer[i * 2];
      }
      LeftOf(buffer[..period], raw);
    }

    /** A failed read leaves nothing waiting; any other leaves a whole period. */
    method Fill(willing: bool) returns (ok: bool)
      requires Valid() && !standby && pcm != null && resampler != null && framesIn == 0
      modifies this`readStatus, this`framesIn, pcm, buffer
      ensures Valid() && ok == willing == (readStatus == 0) && framesIn == if ok then period else 0
      ensures resampler.fed == old(resampler.fed)
    {
      hide Wanted;
      ghost var before := pcm.captured;
      FedSoFar();
      readStatus := pcm.Read(buffer, 2 * period, willing);
      if readStatus != 0 {
        assert Pending() == [];
        return false;
      }
      ghost var raw := buffer[..2 * period];
      framesIn := period;
      if mono {
        DropRight();
      }
      Loaded(before, raw);
      return true;
    }

    lemma FedSoFar()
      requires Valid() && !standby && pcm != null && resampler != null && framesIn == 0
      ensures resampler.fed == Wanted(pcm.captured)
    {
    }

    /** A whole period waits. */
    lemma Loaded(before: seq<Sample>, raw: seq<Sample>)
      requires resampler != null && pcm != null && framesIn == period && 2 * period <= buffer.Length
      requires |before| % 2 == 0 && |raw| == 2 * period && pcm.captured == before + raw
      requires resampler.fed == Wanted(before)
      requires buffer[..Span(period)] == if mono then Left(raw) else raw
      ensures Faithful(resampler, pcm)
    {
      hide Left;
      assert Pending() == buffer[..Span(period)];
      if mono {
        LeftAppend(before, raw);
      }
    }

    /** The first frames that wait are those at the read position. */
    lemma Front(count: nat)
      requires count <= framesIn <= period && 2 * period <= buffer.Length
      ensures Span(period - framesIn) + Span(count) <= buffer.Length
      ensures buffer[Span(period - framesIn)..Span(period - framesIn) + Span(count)] == Pending()[..Span(count)]
    {
      var at, all := Span(period - framesIn), buffer[..];
      Cut(all, at, at + Span(count), Span(period));
      assert Pending() == all[at..Span(period)];
      assert buffer[at..at + Span(count)] == all[at..at + Span(count)];
    }

    /** get_input_next_buffer: how many of the requested frames there are, and where. */
    method NextBuffer(requested: nat, willing: bool) returns (status: int, count: nat, at: nat)
      requires Valid() && !standby && (resampler != null || pcm == null)
      modifies this`readStatus, this`framesIn, pcm, buffer
      ensures Valid() && status == readStatus
      ensures resampler != null ==> resampler.fed == old(resampler.fed)
      ensures pcm == null ==> status == -ENODEV
      ensures status == 0 <==> pcm != null && (old(framesIn) > 0 || willing)
      ensures status == 0 ==> framesIn == if old(framesIn) > 0 then old(framesIn) else period
      ensures status != 0 ==> count == 0 && framesIn == 0
      ensures status == 0 ==>
        && count == (if requested > framesIn then framesIn else requested) && (requested > 0 ==> count > 0)
        && at + Span(count) <= buffer.Length
        && buffer[at..at + Span(count)] == Pending()[..Span(count)]
    {
      hide Wanted, Pending, Left;
      if pcm == null {
        readStatus := -ENODEV;
        return readStatus, 0, 0;
      }
      if framesIn == 0 {
        var ok := Fill(willing);
        if !ok {
          return readStatus, 0, 0;
        }
      }
      count := if requested > framesIn then framesIn else requested;
      at := Span(period - framesIn);
      Front(count);
      status := readStatus;
    }

    /** release_input_buffer: so many frames of what waits are used up. */
    method ReleaseBuffer(count: nat)
      requires framesIn <= period && 2 * period <= buffer.Length && count <= framesIn
      modifies this`framesIn
      ensures framesIn == old(framesIn) - count
      ensures old(Pending()) == old(Pending()[..Span(count)]) + Pending()
    {
      ghost var at := Span(period - framesIn);
      Cut(buffer[..], at, at + Span(count), Span(period));
      framesIn := framesIn - count;
    }

    /** One request of the resampler: it takes over as many of the frames it is shown as it likes, and releases them. */
    method Feed(r: Request)
      requires Valid() && !standby && resampler != null
      modifies this`readStatus, this`framesIn, pcm, buffer, resampler`fed
      ensures Valid() && old(resampler.fed) <= resampler.fed
      ensures Waits() == Asked(old(Waits()), r, pcm != null, period)
      ensures readStatus != 0 ==> resampler.fed == old(resampler.fed) && framesIn == 0
      ensures pcm == null ==> readStatus == -ENODEV
    {
      hide Wanted, Pending, Left;
      var status, count, at := NextBuffer(r.wanted, r.willing);
      if status == 0 {
        Take(Min(r.used, count));
      }
    }

    /** The resampler moves the first frames that wait into its own memory and releases them. */
    method Take(count: nat)
      requires Valid() && !standby && pcm != null && resampler != null && count <= framesIn
      modifies this`framesIn, resampler`fed
      ensures Valid() && old(resampler.fed) <= resampler.fed && framesIn == old(framesIn) - count
    {
      hide Wanted, Pending;
      ghost var fed, waiting := resampler.fed, Pending();
      Front(count);
      ghost var taken := buffer[Span(period - framesIn)..Span(period - framesIn) + Span(count)];
      resampler.fed := fed + taken;
      ReleaseBuffer(count);
      assert waiting == taken + Pending();
      assert fed + waiting == resampler.fed + Pending();
    }

    /** resample_from_provider: any number of requests of any size, also after one that failed, and up to the wanted
        number of frames written. It may live on what it was fed before and ask for nothing. */
    method Resample(out: array<Sample>, to: nat, wanted: nat) returns (written: nat)
      requires Valid() && !standby && resampler != null && wanted > 0
      requires out != buffer && Span(to + wanted) <= out.Length
      modifies this`readStatus, this`framesIn, pcm, buffer, resampler, out
      ensures Valid() && old(resampler.fed) <= resampler.fed && resampler.turns == Rest(old(resampler.turns))
      ensures var turn := Next(old(resampler.turns));
        && Waits() == AskedAll(old(Waits()), turn.requests, pcm != null, period)
        && written == Made(turn, wanted, readStatus == 0)
      ensures forall k | 0 <= k < out.Length && !(Span(to) <= k < Span(to + written)) :: out[k] == old(out[k])
    {
      hide Asked;
      var turn := Next(resampler.turns);
      resampler.turns := Rest(resampler.turns);
      for i := 0 to |turn.requests|
        invariant Valid() && old(resampler.fed) <= resampler.fed && out[..] == old(out[..])
        invariant resampler.turns == Rest(old(resampler.turns))
        invariant Waits() == AskedAll(old(Waits()), turn.requests[..i], pcm != null, period)
      {
        assert turn.requests[..i + 1][..i] == turn.requests[..i];
        Feed(turn.requests[i]);
      }
      assert turn.requests[..|turn.requests|] == turn.requests;
      written := Made(turn, wanted, readStatus == 0);
      WriteAnything(out, Span(to), Span(to + written));
    }

    /** The samples a resampler makes of what it was fed are its own affair. */
    method WriteAnything(out: array<Sample>, from: nat, to: nat)
      requires from <= to <= out.Length
      modifies out
      ensures forall k | 0 <= k < out.Length && !(from <= k < to) :: out[k] == old(out[k])
    {
      for k := from to to
        invariant forall j | 0 <= j < out.Length && !(from <= j < k) :: out[j] == old(out[j])
      {
        out[k] := *;
      }
    }

    /** pcm_read_frames. Whatever the resampler asks for and whichever reads fail, it is fed exactly the captured stream
        (Valid). Without a resampler only a stream that has no device comes here, and is told so. */
    method ReadFrames(out: array<Sample>, frames: nat) returns (ret: int, ghost done: nat)
      requires Valid() && !standby && (resampler != null || pcm == null)
      requires out != buffer && Span(frames) <= out.Length
      modifies this`readStatus, this`framesIn, pcm, buffer, resampler, out
      ensures Valid() && (resampler != null ==> old(resampler.fed) <= resampler.fed)
      ensures ret == frames == done || ret == readStatus < 0
      ensures ret >= 0 <==> if resampler == null then frames == 0
                            else Served(old(Waits()), frames, old(resampler.turns), pcm != null, period)
      ensures done <= frames && forall k | Span(done) <= k < out.Length :: out[k] == old(out[k])
      ensures resampler == null && frames > 0 ==> ret == -ENODEV && done == 0
    {
      hide Wanted, Pending, Left, Faithful, AskedAll, Next, Rest, Made;
      var framesPos := 0;
      done := 0;
      while framesPos < frames
        invariant Valid() && framesPos <= frames && done == framesPos
        invariant resampler != null ==> old(resampler.fed) <= resampler.fed
        invariant resampler != null ==>
          Served(old(Waits()), frames, old(resampler.turns), pcm != null, period)
          == Served(Waits(), frames - framesPos, resampler.turns, pcm != null, period)
        invariant resampler == null ==> framesPos == 0
        invariant forall k | Span(done) <= k < out.Length :: out[k] == old(out[k])
      {
        var count;
        if resampler != null {
          count := Resample(out, framesPos, frames - framesPos);
          done := framesPos + count;
        } else {
          var status, got, at := NextBuffer(frames - framesPos, false);
          ReleaseBuffer(got);
          count := frames - framesPos;
        }
        if readStatus != 0 {
          return readStatus, done;
        }
        framesPos := framesPos + count;
      }
      ret := framesPos;
    }

    /** What a read leaves in the client's buffer: the ramp runs over all of it, also after an error, and only a read
        that was answered can be muted. */
    function Heard(plan: Plan, raw: seq<Sample>, start: nat, answered: bool, muted: bool): seq<Sample>
      requires plan.Fits()
    {
      var n := Span(|raw| / Span(1));
      if answered && muted then seq(|raw|, _ => 0) else plan.Output(raw[..n], start) + raw[n..]
    }

    /** in_read. The client is told that its buffer is full whatever happened. A start that fails leaves the buffer as
        it was. After any other start the read writes so many frames, and leaves what is behind them to the ramp. */
    method InRead(out: array<Sample>, card: Opened, willing: bool, muted: bool)
      returns (count: nat, ghost raw: seq<Sample>, ghost start: nat, ghost done: nat)
      requires Valid() && ramp.Valid() && ramp.mono == mono && requestRate >= 10
      requires out != buffer && (card.Ready? ==> card.device.captured == [])
      modifies this`pcm, this`standby, this`framesIn, this`readStatus, ramp, pcm, card.Devices(), buffer, resampler, out
      ensures Valid() && ramp.Valid() && count == out.Length == |raw|
      ensures standby == old(standby && (card.Busy? || card.NotReady?))
      ensures standby ==> out[..] == old(out[..])
      ensures !standby ==> pcm == if !old(standby) then old(pcm) else if card.Ready? then card.device else null
      ensures !standby ==>
        && ramp.plan == (if old(standby) then Started(mono, requestRate) else old(ramp.plan))
        && start == (if old(standby) then 0 else old(ramp.Done()))
        && out[..] == Heard(ramp.plan, raw, start, old(Answered(card, willing, out.Length / Span(1))), muted)
      ensures !standby && resampler == null ==>
        var answered := if pcm == null then out.Length / Span(1) == 0 else willing;
        out[..] == Heard(ramp.plan, raw, start, answered, muted)
      // what the read itself left, before the ramp
      ensures !standby && (resampler != null || pcm == null) ==>
        forall k | 0 <= k < out.Length && Span(done) <= k :: raw[k] == old(out[k])
      ensures !standby && resampler == null && pcm == null ==> done == 0
      ensures !standby && resampler == null && pcm != null && willing ==>
        var before := old(if standby || pcm == null then [] else pcm.captured);
        pcm.captured == before + raw && forall k | 0 <= k < |raw| :: raw[k] == pcm.sound(|before| + k)
    {
      hide Valid, Wanted, Served, Ramp.Valid, Ramp.Done, Heard;
      count, raw, start, done := out.Length, out[..], 0, 0;
      if standby {
        var ret := Start(card);
        if ret < 0 {
          return;
        }
      }
      var ok;
      ok, done := Fetch(out, willing);
      raw, start := out[..], ramp.Done();
      Finish(out, ok, muted);
    }

    /** The dispatch of in_read. */
    method Fetch(out: array<Sample>, willing: bool) returns (ok: bool, ghost done: nat)
      requires Valid() && !standby && out != buffer
      modifies this`framesIn, this`readStatus, pcm, buffer, resampler, out
      ensures Valid()
      ensures ok == old(Answered(Busy, willing, out.Length / Span(1)))
      ensures resampler != null || pcm == null ==>
        forall k | 0 <= k < out.Length && Span(done) <= k :: out[k] == old(out[k])
      ensures resampler == null && pcm == null ==> done == 0
      ensures resampler == null && pcm != null && willing ==>
        pcm.captured == old(pcm.captured) + out[..]
        && forall k | 0 <= k < out.Length :: out[k] == pcm.sound(|old(pcm.captured)| + k)
    {
      hide Wanted, Pending, Left, Served;
      var ret;
      if resampler == null && pcm != null {
        ret := pcm.Read(out, out.Length, willing);
        done := 0;
      } else {
        ret, done := ReadFrames(out, out.Length / Span(1));
      }
      if ret > 0 {
        ret := 0;
      }
      ok := ret == 0;
    }

    /** The ramp and the mute of in_read. */
    method Finish(out: array<Sample>, ok: bool, muted: bool)
      requires ramp.Valid() && ramp.mono == mono
      modifies ramp, out
      ensures ramp.Valid() && ramp.plan == old(ramp.plan)
      ensures out[..] == Heard(ramp.plan, old(out[..]), old(ramp.Done()), ok, muted)
    {
      hide Plan.Output, Plan.Fits;
      ghost var raw, n := out[..], Span(out.Length / Span(1));
      if ramp.rampFrames > 0 {
        ramp.Apply(out, out.Length / Span(1));
        assert out[..] == out[..n] + out[n..];
      } else {
        OutputAfterRamp(ramp.plan, raw[..n], ramp.Done());
      }
      if ok && muted {
        Silence(out);
      }
    }

    // ----- What reaches the client -----

    /** Behind the ramp a client that is not muted hears what was read. */
    lemma HeardBehind(plan: Plan, raw: seq<Sample>, answered: bool, k: nat)
      requires plan.Fits() && plan.mono && mono && plan.total <= k < |raw|
      ensures |Heard(plan, raw, 0, answered, false)| == |raw| && Heard(plan, raw, 0, answered, false)[k] == raw[k]
    {
    }

    /** Sample by sample: silence after a mute that counts; else the ramp on every whole frame, and what is left of half
        a frame as it was. */
    lemma HeardExact(plan: Plan, raw: seq<Sample>, start: nat, answered: bool, muted: bool, k: nat)
      requires plan.Fits() && plan.mono == mono && k < |raw|
      ensures |Heard(plan, raw, start, answered, muted)| == |raw|
      ensures var o, frame := Heard(plan, raw, start, answered, muted)[k], start + if mono then k else k / 2;
        if answered && muted then o == 0
        else if frame >= plan.total || (!mono && k == |raw| - 1 && |raw| % 2 == 1) then o == raw[k]
        else o * 65536 <= raw[k] * (plan.step * frame) < (o + 1) * 65536
    {
      var n := Span(|raw| / Span(1));
      if k < n {
        OutputAt(plan, raw[..n], start, k);
      }
    }

    /** A stream at the device's own rate hands out the captured samples as they come (InRead). Whatever is captured,
        these are the frames that its client wants exactly if the client wants both channels, or one frame at most. */
    lemma DirectExact(frames: nat)
      ensures (forall captured: seq<Sample> | |captured| == 2 * frames ::
                 captured[..Span(frames)] == Wanted(captured))
              <==> !mono || frames <= 1
    {
      if !mono {
        assert forall captured: seq<Sample> | |captured| == 2 * frames :: captured[..Span(frames)] == captured;
      } else if frames <= 1 {
        forall captured: seq<Sample> | |captured| == 2 * frames ensures captured[..Span(frames)] == Wanted(captured) {
          LeftOf(captured[..frames], captured);
        }
      } else {
        var captured: seq<Sample> := seq(2 * frames, i => if i == 1 then 1 else 0);
        LeftAt(captured, 1);
        assert captured[..Span(frames)][1] != Wanted(captured)[1];
      }
    }

    /** A muted client hears nothing, whatever is in its buffer, exactly if its read was answered or ends before the
        first step of the ramp. */
    lemma MutedExact(plan: Plan, frames: nat, start: nat, answered: bool)
      requires plan.Fits() && plan.mono == mono
      ensures (forall raw: seq<Sample> | |raw| == Span(frames) :: Silent(Heard(plan, raw, start, answered, true)))
              <==> answered || frames == 0 || (start + frames <= plan.total && plan.Volume(start + frames - 1) == 0)
    {
      hide Plan.Output, Plan.Volume;
      if !answered {
        OutputSilent(plan, frames, start);
        forall raw: seq<Sample> | |raw| == Span(frames)
          ensures Heard(plan, raw, start, answered, true) == plan.Output(raw, start)
        {
          assert raw[..Span(frames)] == raw;
        }
      }
    }

    /** The memset of in_read. */
    method Silence(out: array<Sample>)
      modifies out
      ensures out[..] == seq(out.Length, _ => 0)
    {
      for i := 0 to out.Length
        invariant forall k | 0 <= k < i :: out[k] == 0
      {
        out[i] := 0;
      }
    }
  }

  // ----- Refused and stale reads -----

  lemma {:induction false} WillingAll(w: Waiting, requests: seq<Request>, period: nat)
    requires period > 0 && forall r | r in requests :: r.willing
    ensures AskedAll(w, requests, true, period).ok <==> w.ok || requests != []
  {
    if requests != [] {
      WillingAll(w, requests[..|requests| - 1], period);
    }
  }

  /** With a card that refuses nothing a resampled read is served exactly if the last read before it was, or its first
      call of the resampler asks for something: the status of an earlier read is never cleared. */
  lemma {:induction false} StaleExact(w: Waiting, frames: nat, turns: seq<Turn>, period: nat)
    requires period > 0 && forall t, r | t in turns && r in t.requests :: r.willing
    ensures Served(w, frames, turns, true, period) <==> frames == 0 || w.ok || Next(turns).requests != []
    decreases frames
  {
    hide AskedAll;
    if frames > 0 {
      var turn := Next(turns);
      WillingAll(w, turn.requests, period);
      StaleExact(AskedAll(w, turn.requests, true, period), frames - Made(turn, frames, true), Rest(turns), period);
    }
  }

  /** Without a device every request of the resampler is refused. */
  lemma {:induction false} NoDevice(w: Waiting, frames: nat, turns: seq<Turn>, period: nat)
    requires frames > 0
    ensures !w.ok || Next(turns).requests != [] ==> !Served(w, frames, turns, false, period)
    ensures w.ok && (forall t | t in turns :: t.requests == []) ==> Served(w, frames, turns, false, period)
    decreases frames
  {
    var turn := Next(turns);
    var n := Made(turn, frames, true);
    if w.ok && (forall t | t in turns :: t.requests == []) && n < frames {
      NoDevice(w, frames - n, Rest(turns), period);
    }
  }

  /** The first read of a single-channel stream at the device's own rate: behind the ramp frame k of the client is
      sample k of the sound. */
  method FirstMonoRead(stream: StreamIn, pcm: Pcm, out: array<Sample>)
    requires stream.Valid() && stream.ramp.Valid() && stream.ramp.mono == stream.mono && stream.requestRate >= 10
    requires stream.standby && stream.mono && stream.resampler == null && stream.pcm == null
    requires pcm.captured == [] && out != stream.buffer
    modifies stream, stream.ramp, stream.buffer, pcm, out
    ensures forall k | stream.requestRate / 10 <= k < out.Length :: out[k] == pcm.sound(k)
  {
    hide StreamIn.Valid, Ramp.Valid, StreamIn.Heard;
    assert stream.Answered(Ready(pcm), true, out.Length);
    var count, raw, start, done := stream.InRead(out, Ready(pcm), true, false);
    assert stream.ramp.plan.Fits() by {
      stream.ramp.PlanFits();
    }
    forall k | stream.requestRate / 10 <= k < out.Length ensures out[k] == pcm.sound(k) {
      stream.HeardBehind(stream.ramp.plan, raw, true, k);
      assert out[..][k] == raw[k];
    }
  }

  /** A run with any sound, at 44100 frames a second: what frame k of the client should be is sample 2k. */
  method MonoRun(sound: nat -> Sample, frames: nat) returns (out: array<Sample>, ghost left: seq<Sample>)
    ensures out.Length == frames == |left| && left == Left(seq(2 * frames, i requires i >= 0 => sound(i)))
    ensures forall k | 4410 <= k < frames :: out[k] == sound(k) && left[k] == sound(2 * k)
  {
    hide Left;
    var pcm := new Pcm(sound);
    var stream := new StreamIn(1024, true, 44100, null);
    out := new Sample[frames];
    FirstMonoRead(stream, pcm, out);
    ghost var captured: seq<Sample> := seq(2 * frames, i requires i >= 0 => sound(i));
    left := Left(captured);
    forall k | 0 <= k < frames ensures left[k] == sound(2 * k) {
      LeftAt(captured, k);
    }
  }
}
