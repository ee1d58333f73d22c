/** The slots of a display plane: which are with the driver and which is next (hwc/hdmi.cpp, hwc/hwc.cpp). */
module DisplayRing {
  import opened Arithmetic

  /** What the driver is willing to do when it is asked: take a slot, give one back, start and stop streaming. */
  datatype Driver = Driver(takes: bool, gives: bool, starts: bool, stops: bool)

  /** A video device. Willing or not, it refuses a slot that it already has, serves its slots in order, and gives all of
      them back when streaming stops. */
  class Device {
    var fifo: seq<nat>

    constructor ()
      ensures fifo == []
    {
      fifo := [];
    }

    method QBuf(index: nat, willing: bool) returns (ok: bool)
      modifies this
      ensures ok == (willing && index !in old(fifo))
      ensures fifo == if ok then old(fifo) + [index] else old(fifo)
    {
      ok := willing && index !in fifo;
      if ok {
        fifo := fifo + [index];
      }
    }

    method DqBuf(willing: bool) returns (ok: bool)
      modifies this
      ensures ok == (willing && old(fifo) != [])
      ensures fifo == if ok then old(fifo)[1..] else old(fifo)
    {
      ok := willing && fifo != [];
      if ok {
        fifo := fifo[1..];
      }
    }

    method StreamOff(willing: bool) returns (ok: bool)
      modifies this
      ensures ok == willing
      ensures fifo == if ok then [] else old(fifo)
    {
      ok := willing;
      if ok {
        fifo := [];
      }
    }
  }

  // ----- The ring -----

  /** The slot so many places before index, around the ring. */
  function Back(index: nat, places: nat, max: nat): nat
    requires index < max && places <= max
  {
    if index >= places then index - places else index + max - places
  }

  lemma BackIsModulo(index: nat, places: nat, max: nat)
    requires index < max && places <= max
    ensures Back(index, places, max) == (index + max - places) % max
  {
    if index >= places {
      AddMax(index - places, max);
    } else {
      Small(index + max - places, max);
    }
  }

  lemma AddMax(a: nat, max: nat)
    requires a < max
    ensures (a + max) % max == a
  {
    assert (a + max) / max == 1;
  }

  /** The slots with the driver are the count ones that come just before index, oldest first. */
  ghost predicate Before(fifo: seq<nat>, index: nat, count: nat, max: nat) {
    && count < max && index < max && |fifo| == count
    && forall k | 0 <= k < count :: fifo[k] == Back(index, count - k, max)
  }

  /** The driver has every slot. */
  ghost predicate Full(fifo: seq<nat>, max: nat) {
    forall i: nat | i < max :: i in fifo
  }

  /** No slot is with the driver twice, and the next one is free. */
  lemma NextIsFree(fifo: seq<nat>, index: nat, count: nat, max: nat)
    requires Before(fifo, index, count, max)
    ensures index !in fifo && forall i, j | 0 <= i < j < count :: fifo[i] != fifo[j]
  {
  }

  /** One slot more, and the oldest taken back if that filled the ring. */
  lemma Turned(fifo: seq<nat>, index: nat, count: nat, max: nat)
    requires max >= 2 && Before(fifo, index, count, max)
    ensures count + 1 < max ==> Before(fifo + [index], (index + 1) % max, count + 1, max)
    ensures count + 1 == max ==> Before((fifo + [index])[1..], (index + 1) % max, count, max)
    ensures count + 1 == max ==> Full(fifo + [index], max)
  {
    var more := fifo + [index];
    if index + 1 == max {
      AddMax(0, max);
    }
    var next := (index + 1) % max;
    assert next == if index + 1 == max then 0 else index + 1;
    if count + 1 == max {
      forall i: nat | i < max ensures i in more {
        var k := if i >= next then i - next else i + max - next;
        assert more[k] == i;
      }
    }
  }

  // ----- A plane of the HDMI thread -----

  /** The fields of a plane, and the slots that are with its driver. */
  datatype Ring = Ring(max: nat, on: bool, index: nat, count: nat, fifo: seq<nat>)

  ghost predicate Steady(p: Ring) {
    Before(p.fifo, p.index, p.count, p.max)
  }

  /** A refused return has left every slot with the driver. */
  ghost predicate Jammed(p: Ring) {
    p.on && p.index < p.max && Full(p.fifo, p.max)
  }

  /** A start that failed late has left its slot with the driver. */
  predicate Stranded(p: Ring) {
    !p.on && p.fifo == [0]
  }

  ghost predicate Valid(p: Ring) {
    && p.max >= 2
    && (p.on ==> p.count > 0 && (Steady(p) || Jammed(p)))
    && (!p.on ==> p.fifo == [] || Stranded(p))
  }

  /** handleStartRgb, handleStartVideo */
  function Started(p: Ring, d: Driver): (Ring, bool) {
    if !d.takes || 0 in p.fifo then (p.(index := 0, count := 0), false)
    else (p.(index := 1, count := 1, fifo := p.fifo + [0]), d.starts)
  }

  /** handlePlayRgb, handlePlayVideo */
  function Played(p: Ring, d: Driver): (Ring, bool)
    requires p.max > 0
  {
    if !d.takes || p.index in p.fifo then (p, false)
    else
      var q := p.(index := (p.index + 1) % p.max, count := p.count + 1, fifo := p.fifo + [p.index]);
      if q.count < q.max then (q, true)
      else if !d.gives then (q, false)
      else (q.(count := q.count - 1, fifo := q.fifo[1..]), true)
  }

  /** No handle came for a plane that plays. */
  function StoppedUnless(p: Ring, handle: bool, d: Driver): (Ring, bool) {
    if handle || !p.on then (p, true)
    else if d.stops then (p.(on := false, fifo := []), true)
    else (p, false)
  }

  /** A handle came for a plane that does not play yet. */
  function StartedIf(p: Ring, handle: bool, d: Driver): (Ring, bool) {
    if !handle || p.on then (p, true)
    else
      var (q, ok) := Started(p, d);
      (q.(on := ok), ok)
  }

  /** A handle came for a plane that played before. */
  function PlayedIf(p: Ring, play: bool, d: Driver): (Ring, bool)
    requires p.max > 0
  {
    if play then Played(p, d) else (p, true)
  }

  /** A start succeeds exactly on a plane whose driver is empty, takes the slot and starts. */
  lemma StartExact(p: Ring, d: Driver)
    requires Valid(p) && !p.on
    ensures var (q, ok) := Started(p, d);
            && (ok <==> p.fifo == [] && d.takes && d.starts)
            && (ok ==> q.index == q.count == 1 && Valid(q.(on := true)) && Steady(q))
            && (!ok ==> Valid(q))
            && (Stranded(q) && !ok <==> Stranded(p) || (p.fifo == [] && d.takes && !d.starts))
  {
  }

  /** A play sends the next slot out, and with a full ring it takes the oldest back. It jams the plane exactly when the
      driver took the last slot and gives none back. */
  lemma PlayExact(p: Ring, d: Driver)
    requires Valid(p) && p.on
    ensures var (q, ok) := Played(p, d);
            && Valid(q) && q.on
            && (ok <==> !Jammed(p) && d.takes && (p.count + 1 < p.max || d.gives))
            && (ok ==> Steady(q) && q.index == (p.index + 1) % p.max && q.fifo[q.count - 1] == p.index)
            && (ok ==> q.count == if p.count + 1 < p.max then p.count + 1 else p.count)
            && (Jammed(q) <==> Jammed(p) || (d.takes && p.count + 1 == p.max && !d.gives))
            && (Jammed(p) ==> q == p)
  {
    if Steady(p) {
      NextIsFree(p.fifo, p.index, p.count, p.max);
      Turned(p.fifo, p.index, p.count, p.max);
      NotFull(p);
      var q := Played(p, d).0;
      if Steady(q) {
        NotFull(q);
      }
    }
  }

  lemma NotFull(p: Ring)
    requires Steady(p)
    ensures !Jammed(p)
  {
    NextIsFree(p.fifo, p.index, p.count, p.max);
  }

  // ----- The two planes -----

  datatype Kind = HDMI_EXIT | HDMI_STOP_RGB | HDMI_PLAY

  /** A message, and what the drivers answer while it is handled. */
  datatype Message = Message(kind: Kind, ext1: bool, ext2: bool, rgb: Driver, video: Driver)

  datatype Planes = Planes(rgb: Ring, video: Ring)

  ghost predicate BothValid(s: Planes) {
    Valid(s.rgb) && Valid(s.video)
  }

  /** handlePlay: the first step that fails ends it. */
  function Handled(s: Planes, m: Message): (Planes, bool)
    requires s.rgb.max > 0 && s.video.max > 0
  {
    var (rgb, ok) := StoppedUnless(s.rgb, m.ext1, m.rgb);
    if !ok then (s, false)
    else
      var (video, ok) := StoppedUnless(s.video, m.ext2, m.video);
      if !ok then (Planes(rgb, video), false)
      else Shown(Planes(rgb, video), m)
  }

  /** handlePlay once the planes without a handle are stopped. */
  function Shown(s: Planes, m: Message): (Planes, bool)
    requires s.rgb.max > 0 && s.video.max > 0
  {
    var playRgb, playVideo := m.ext1 && s.rgb.on, m.ext2 && s.video.on;
    var (rgb, ok) := StartedIf(s.rgb, m.ext1, m.rgb);
    if !ok then (Planes(rgb, s.video), false)
    else
      var (video, ok) := StartedIf(s.video, m.ext2, m.video);
      if !ok then (Planes(rgb, video), false)
      else
        var (rgb, ok) := PlayedIf(rgb, playRgb, m.rgb);
        if !ok then (Planes(rgb, video), false)
        else
          var (video, ok) := PlayedIf(video, playVideo, m.video);
          (Planes(rgb, video), ok)
  }

  /** processMessage: a message without any handle is dropped, whatever it asks for. */
  function Processed(s: Planes, m: Message): Planes
    requires s.rgb.max > 0 && s.video.max > 0
  {
    if m.ext1 || m.ext2 then Handled(s, m).0 else s
  }

  /** One plane of the two, its handle and its driver. */
  function PlaneOf(s: Planes, rgb: bool): Ring {
    if rgb then s.rgb else s.video
  }

  predicate HandleOf(m: Message, rgb: bool) {
    if rgb then m.ext1 else m.ext2
  }

  function DriverOf(m: Message, rgb: bool): Driver {
    if rgb then m.rgb else m.video
  }

  /** One plane before and after a message: stopped, newly started at slot 1, or turned by one slot. */
  ghost predicate Advanced(p: Ring, q: Ring, wanted: bool) {
    && q.max == p.max > 0 && q.on == wanted
    && if wanted then Steady(q) && q.index == if p.on then (p.index + 1) % p.max else 1
       else if p.on then q.fifo == [] else q == p
  }

  /** The three steps of one plane; a message takes each of its planes through the first few of them. */
  lemma PlaneSteps(p: Ring, handle: bool, d: Driver)
    requires Valid(p)
    ensures var (a, ok1) := StoppedUnless(p, handle, d);
            var (b, ok2) := StartedIf(a, handle, d);
            var (c, ok3) := PlayedIf(b, handle && a.on, d);
            && Valid(a) && Valid(b) && Valid(c)
            && (ok1 && ok2 && ok3 ==> Advanced(p, c, handle))
  {
    hide Before, Full;
    var a := StoppedUnless(p, handle, d).0;
    if !a.on {
      StartExact(a, d);
    } else {
      PlayExact(a, d);
    }
  }

  /** What any message does to one plane: its accounting is kept, and a message that is handled to its end leaves it
      playing exactly if it had a handle, one slot further. */
  lemma HandledExact(s: Planes, m: Message, rgb: bool)
    requires BothValid(s)
    ensures var (t, ok) := Handled(s, m);
            BothValid(t) && (ok ==> Advanced(PlaneOf(s, rgb), PlaneOf(t, rgb), HandleOf(m, rgb)))
  {
    hide StoppedUnless, StartedIf, PlayedIf, Valid, Advanced;
    PlaneSteps(s.rgb, m.ext1, m.rgb);
    PlaneSteps(s.video, m.ext2, m.video);
  }

  /** No handle, and off or willing to stop. */
  predicate StopsWell(p: Ring, handle: bool, d: Driver) {
    handle || !p.on || d.stops
  }

  /** A plane that is to start has no slot with its driver, which takes one and starts. */
  predicate StartsWell(p: Ring, handle: bool, d: Driver) {
    !handle || p.on || (p.fifo == [] && d.takes && d.starts)
  }

  /** A plane that is to play is not jammed, its driver takes a slot, and there is room or it gives one back. */
  ghost predicate PlaysWell(p: Ring, handle: bool, d: Driver) {
    !handle || !p.on || (!Jammed(p) && d.takes && (p.count + 1 < p.max || d.gives))
  }

  /** What becomes of a plane whose turn comes. */
  ghost predicate Became(p: Ring, q: Ring, handle: bool, d: Driver)
    requires p.max > 0
  {
    var next := (p.index + 1) % p.max;
    if !handle then q == if p.on && d.stops then p.(on := false, fifo := []) else p
    else if !p.on then
      q == if p.fifo == [] && d.takes then p.(on := d.starts, index := 1, count := 1, fifo := [0])
           else p.(index := 0, count := 0)
    else if Jammed(p) || !d.takes then q == p
    else if p.count + 1 == p.max && d.gives then q == p.(index := next, fifo := (p.fifo + [p.index])[1..])
    else q == p.(index := next, count := p.count + 1, fifo := p.fifo + [p.index])
  }

  /** One plane through its three steps; each step says whether it went well. */
  lemma StepsExact(p: Ring, handle: bool, d: Driver)
    requires Valid(p)
    ensures var (a, ok1) := StoppedUnless(p, handle, d);
            var (b, ok2) := StartedIf(a, handle, d);
            var (c, ok3) := PlayedIf(b, handle && a.on, d);
            && (ok1 <==> StopsWell(p, handle, d)) && (ok2 <==> StartsWell(p, handle, d))
            && (ok3 <==> PlaysWell(p, handle, d)) && Became(p, c, handle, d)
            && (handle ==> a == p) && (!handle ==> b == a) && (!handle || !p.on ==> c == b) && (p.on ==> b == a)
            && (handle ==> a.on == p.on) && (!ok1 ==> a == p)
  {
    hide Before, Full;
    if handle && p.on {
      PlayExact(p, d);
      TakenIsFull(p);
    }
  }

  lemma TakenIsFull(p: Ring)
    requires Valid(p) && p.on
    ensures p.index in p.fifo <==> Jammed(p)
    ensures !Jammed(p) ==> |p.fifo| == p.count > 0 && p.count < p.max
  {
    if Steady(p) {
      NextIsFree(p.fifo, p.index, p.count, p.max);
      NotFull(p);
    }
  }

  /** A message is handled to its end if and only if each plane without a handle is off or stops, each plane that is to
      start does, and each plane that plays can go on. A plane is left alone exactly if a step before its own failed:
      both stops come before both starts, these before both plays, and the RGB plane before the video plane. */
  lemma HandledWhen(s: Planes, m: Message)
    requires BothValid(s)
    ensures var (t, ok) := Handled(s, m);
      var stops := StopsWell(s.rgb, m.ext1, m.rgb) && StopsWell(s.video, m.ext2, m.video);
      var starts := StartsWell(s.rgb, m.ext1, m.rgb) && StartsWell(s.video, m.ext2, m.video);
      && (ok <==> stops && starts && PlaysWell(s.rgb, m.ext1, m.rgb) && PlaysWell(s.video, m.ext2, m.video))
      && (if !m.ext1 || (stops && (s.rgb.on ==> starts)) then Became(s.rgb, t.rgb, m.ext1, m.rgb)
          else t.rgb == s.rgb)
      && (if StopsWell(s.rgb, m.ext1, m.rgb)
             && (m.ext2 ==> StartsWell(s.rgb, m.ext1, m.rgb) && (s.video.on ==> PlaysWell(s.rgb, m.ext1, m.rgb)))
          then Became(s.video, t.video, m.ext2, m.video) else t.video == s.video)
  {
    hide StoppedUnless, StartedIf, PlayedIf, Valid, PlaysWell, Became;
    ValidMax(s.rgb);
    ValidMax(s.video);
    StepsExact(s.rgb, m.ext1, m.rgb);
    StepsExact(s.video, m.ext2, m.video);
  }

  lemma ValidMax(p: Ring)
    requires Valid(p)
    ensures p.max > 0
  {
  }

  lemma ProcessedValid(s: Planes, m: Message)
    requires BothValid(s)
    ensures BothValid(Processed(s, m))
  {
    HandledExact(s, m, true);
  }

  /** Any number of messages. */
  function AfterAll(s: Planes, messages: seq<Message>): (t: Planes)
    requires s.rgb.max > 0 && s.video.max > 0
    ensures t.rgb.max == s.rgb.max && t.video.max == s.video.max
  {
    if messages == [] then s
    else Processed(AfterAll(s, messages[..|messages| - 1]), messages[|messages| - 1])
  }

  lemma {:induction false} RunsValid(s: Planes, messages: seq<Message>)
    requires BothValid(s)
    ensures BothValid(AfterAll(s, messages))
  {
    hide Processed;
    if messages != [] {
      RunsValid(s, messages[..|messages| - 1]);
      ProcessedValid(AfterAll(s, messages[..|messages| - 1]), messages[|messages| - 1]);
    }
  }

  // ----- What ends a jam -----

  /** A message that has a handle for the other plane only, and whose streamoff succeeds. */
  predicate Releases(m: Message, rgb: bool) {
    HandleOf(m, !rgb) && !HandleOf(m, rgb) && DriverOf(m, rgb).stops
  }

  lemma JammedStep(s: Planes, m: Message, rgb: bool)
    requires BothValid(s) && Jammed(PlaneOf(s, rgb))
    ensures var p := PlaneOf(s, rgb);
            PlaneOf(Processed(s, m), rgb) == if Releases(m, rgb) then p.(on := false, fifo := []) else p
  {
    hide Started, Steady;
    assert PlaneOf(s, rgb).index in PlaneOf(s, rgb).fifo;
  }

  /** The plane is as it was before and after each of the messages. */
  ghost predicate Lasts(s: Planes, messages: seq<Message>, rgb: bool)
    requires s.rgb.max > 0 && s.video.max > 0
  {
    forall i | 0 <= i <= |messages| :: PlaneOf(AfterAll(s, messages[..i]), rgb) == PlaneOf(s, rgb)
  }

  predicate NoneReleases(messages: seq<Message>, rgb: bool) {
    forall m | m in messages :: !Releases(m, rgb)
  }

  lemma OneMessageMore(s: Planes, messages: seq<Message>, rgb: bool)
    requires s.rgb.max > 0 && s.video.max > 0 && messages != []
    ensures var front, last := messages[..|messages| - 1], messages[|messages| - 1];
      && (Lasts(s, messages, rgb) <==> Lasts(s, front, rgb) && PlaneOf(AfterAll(s, messages), rgb) == PlaneOf(s, rgb))
      && (NoneReleases(messages, rgb) <==> NoneReleases(front, rgb) && !Releases(last, rgb))
      && (Lasts(s, front, rgb) ==> PlaneOf(AfterAll(s, front), rgb) == PlaneOf(s, rgb))
  {
    hide AfterAll, Releases;
    var n := |messages| - 1;
    var front, last := messages[..n], messages[n];
    assert messages[..n + 1] == messages && front + [last] == messages && front[..n] == front;
    assert forall i | 0 <= i <= n :: front[..i] == messages[..i];
  }

  /** A jam lasts through a run of messages exactly if none of them releases it. */
  lemma {:induction false} JamExact(s: Planes, messages: seq<Message>, rgb: bool)
    requires BothValid(s) && Jammed(PlaneOf(s, rgb))
    ensures Lasts(s, messages, rgb) <==> NoneReleases(messages, rgb)
  {
    if messages == [] {
      assert messages[..0] == [];
    } else {
      hide Processed, Releases, Jammed, Steady, Lasts, NoneReleases;
      var front, last := messages[..|messages| - 1], messages[|messages| - 1];
      JamExact(s, front, rgb);
      OneMessageMore(s, messages, rgb);
      if PlaneOf(AfterAll(s, front), rgb) == PlaneOf(s, rgb) {
        RunsValid(s, front);
        JammedStep(AfterAll(s, front), last, rgb);
        StillOn(PlaneOf(s, rgb));
      }
    }
  }

  lemma StillOn(p: Ring)
    requires Jammed(p)
    ensures p.on
  {
  }

  /** After a message that released it, the next one that is handled and has a handle for the plane makes it play from
      the first slot. */
  lemma PlaysAgain(s: Planes, release: Message, next: Message, rgb: bool)
    requires BothValid(s) && Jammed(PlaneOf(s, rgb)) && Releases(release, rgb) && HandleOf(next, rgb)
    requires Handled(Processed(s, release), next).1
    ensures var q := PlaneOf(Handled(Processed(s, release), next).0, rgb); q.on && Steady(q) && q.index == 1
  {
    hide Handled, Steady, Jammed;
    JammedStep(s, release, rgb);
    ProcessedValid(s, release);
    HandledExact(Processed(s, release), next, rgb);
  }

  lemma StrandedStep(s: Planes, m: Message, rgb: bool)
    requires s.rgb.max > 0 && s.video.max > 0 && Stranded(PlaneOf(s, rgb))
    ensures Stranded(PlaneOf(Processed(s, m), rgb))
  {
  }

  /** A plane whose start failed late is never started by any later message. */
  lemma {:induction false} StrandedForever(s: Planes, messages: seq<Message>, rgb: bool)
    requires s.rgb.max > 0 && s.video.max > 0 && Stranded(PlaneOf(s, rgb))
    ensures Stranded(PlaneOf(AfterAll(s, messages), rgb))
  {
    hide Processed, Stranded;
    if messages != [] {
      StrandedForever(s, messages[..|messages| - 1], rgb);
      StrandedStep(AfterAll(s, messages[..|messages| - 1]), messages[|messages| - 1], rgb);
    }
  }

  // ----- The thread -----

  class Plane {
    const device: Device
    const max: nat
    var on: bool
    var outIndex: nat
    var outQCount: nat

    function Value(): Ring
      reads this, device
    {
      Ring(max, on, outIndex, outQCount, device.fifo)
    }

    constructor (device: Device, max: nat)
      requires max >= 2 && device.fifo == []
      ensures Value() == Ring(max, false, 0, 0, []) && Valid(Value()) && this.device == device
    {
      this.device, this.max, on, outIndex, outQCount := device, max, false, 0, 0;
    }

    method HandleStart(driver: Driver) returns (ok: bool)
      modifies this`outIndex, this`outQCount, device
      ensures (Value(), ok) == Started(old(Value()), driver)
    {
      outIndex := 0;
      outQCount := 0;
      ok := device.QBuf(outIndex, driver.takes);
      if !ok {
        return;
      }
      outIndex := outIndex + 1;
      outQCount := outQCount + 1;
      ok := driver.starts;
    }

    method HandleStop(driver: Driver) returns (ok: bool)
      modifies device
      ensures device.fifo == (if ok then [] else old(device.fifo)) && ok == driver.stops
    {
      ok := device.StreamOff(driver.stops);
    }

    method HandlePlay(driver: Driver) returns (ok: bool)
      requires max > 0
      modifies this`outIndex, this`outQCount, device
      ensures (Value(), ok) == Played(old(Value()), driver)
    {
      ok := device.QBuf(outIndex, driver.takes);
      if !ok {
        return;
      }
      outIndex := outIndex + 1;
      outIndex := outIndex % max;
      outQCount := outQCount + 1;
      if outQCount >= max {
        ok := device.DqBuf(driver.gives);
        if !ok {
          return;
        }
        outQCount := outQCount - 1;
      }
    }
  }

  class HdmiThread {
    const rgb: Plane
    const video: Plane

    ghost predicate Apart() {
      rgb != video && rgb.device != video.device && rgb.max > 0 && video.max > 0
    }

    function Value(): Planes
      reads rgb, video, rgb.device, video.device
    {
      Planes(rgb.Value(), video.Value())
    }

    constructor (rgb: Plane, video: Plane)
      requires rgb != video && rgb.device != video.device && rgb.max > 0 && video.max > 0
      ensures Apart() && this.rgb == rgb && this.video == video
    {
      this.rgb, this.video := rgb, video;
    }

    /** The message's kind counts only if it has no handle, and then only to end the thread. */
    method ProcessMessage(m: Message) returns (goOn: bool)
      requires Apart()
      modifies rgb, video, rgb.device, video.device
      ensures Value() == Processed(old(Value()), m)
      ensures Value() == if m.ext1 || m.ext2 then Handled(old(Value()), m).0 else old(Value())
      ensures goOn <==> m.kind != HDMI_EXIT || m.ext1 || m.ext2
    {
      var kind := m.kind;
      if m.ext1 || m.ext2 {
        kind := HDMI_PLAY;
      } else if kind != HDMI_EXIT {
        kind := HDMI_STOP_RGB;
      }
      match kind {
        case HDMI_PLAY =>
          var ok := HandlePlay(m);
        case HDMI_STOP_RGB =>
        case HDMI_EXIT => return false;
      }
      return true;
    }

    method HandlePlay(m: Message) returns (ok: bool)
      requires Apart()
      modifies rgb, video, rgb.device, video.device
      ensures (Value(), ok) == Handled(old(Value()), m)
    {
      hide Shown;
      if !m.ext1 && rgb.on {
        ok := rgb.HandleStop(m.rgb);
        if !ok {
          return;
        }
        rgb.on := false;
      }
      if !m.ext2 && video.on {
        ok := video.HandleStop(m.video);
        if !ok {
          return;
        }
        video.on := false;
      }
      ok := Show(m);
    }

    method Show(m: Message) returns (ok: bool)
      requires Apart()
      modifies rgb, video, rgb.device, video.device
      ensures (Value(), ok) == Shown(old(Value()), m)
    {
      hide Started, Played;
      var ext1, ext2 := m.ext1, m.ext2;
      if ext1 && !rgb.on {
        ok := rgb.HandleStart(m.rgb);
        if !ok {
          return;
        }
        rgb.on, ext1 := true, false;
      }
      if ext2 && !video.on {
        ok := video.HandleStart(m.video);
        if !ok {
          return;
        }
        video.on, ext2 := true, false;
      }
      ok := true;
      if ext1 {
        ok := rgb.HandlePlay(m.rgb);
        if !ok {
          return;
        }
      }
      if ext2 {
        ok := video.HandlePlay(m.video);
      }
    }
  }

  // ----- The composer's own planes -----

  /** The composer commits index and count only once everything went well. */
  class ComposerPlane {
    const device: Device
    const max: nat
    var outIndex: nat
    var outQCount: nat

    ghost predicate Steady()
      reads this, device
    {
      max >= 2 && Before(device.fifo, outIndex, outQCount, max)
    }

    constructor (device: Device, max: nat)
      requires max >= 2 && device.fifo == []
      ensures this.device == device && this.max == max && Steady()
    {
      this.device, this.max, outIndex, outQCount := device, max, 0, 0;
    }

    /** nxp_set_lcd_buffer, nxp_hdmi_set_rgb_buffer and nxp_hdmi_set_video_buffer. After a failure that came too late
        the next slot is with the driver already, and every later call fails until the plane is switched off. */
    method SetBuffer(isStart: bool, driver: Driver) returns (ok: bool)
      requires max >= 2 && (Steady() || outIndex in device.fifo)
      modifies this`outIndex, this`outQCount, device
      ensures ok ==> outQCount == if old(outQCount) < max - 1 then old(outQCount) + 1 else max - 1
      ensures ok ==> Steady() && outIndex == (old(outIndex) + 1) % max && device.fifo[outQCount - 1] == old(outIndex)
      ensures !ok ==> outIndex == old(outIndex) && outQCount == old(outQCount)
      ensures ok <==> driver.takes && old(outIndex !in device.fifo) && (isStart ==> driver.starts)
                      && (old(outQCount) + 1 < max || driver.gives)
      ensures
        var more := old(device.fifo) + [old(outIndex)];
        device.fifo == if !driver.takes || old(outIndex in device.fifo) then old(device.fifo)
                       else if ok && old(outQCount) + 1 >= max then more[1..] else more
    {
      var index, qCount := outIndex, outQCount;
      ghost var fifo := device.fifo;
      ok := device.QBuf(index, driver.takes);
      if !ok {
        return;
      }
      Turned(fifo, index, qCount, max);
      qCount := qCount + 1;
      index := index + 1;
      index := index % max;
      if isStart {
        ok := driver.starts;
        if !ok {
          return;
        }
      }
      if qCount >= max {
        ok := device.DqBuf(driver.gives);
        if !ok {
          return;
        }
        qCount := qCount - 1;
      }
      outIndex := index;
      outQCount := qCount;
    }
  }
}
