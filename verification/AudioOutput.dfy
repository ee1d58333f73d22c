/** Output streams, the card they share and the mixer behind it (audio/audio_hw.c, the build without USES_CARD_SPDIF,
    in which the HDMI slot is never filled). */
module AudioOutput {
  import opened AudioRoute
  import opened AudioSelect
  import opened Options

  const OUTPUT_DEEP_BUF := 0
  const OUTPUT_LOW_LATENCY := 1
  const OUTPUT_TOTAL := 3
  const AUX_DIGITAL := OTHER_OUT(10)
  const EINVAL := 22
  const ENOMEM := 12
  const EBUSY := 16

  // ----- The table of streams, as values -----

  /** What a stream's pcm points at: nothing, an open device, or one that was closed again because it was not ready. */
  datatype Handle = NoPcm | OpenPcm | ClosedPcm

  datatype Slot = Empty | Used(device: set<OutDevice>, standby: bool, pcm: Handle)

  predicate Active(s: Slot) {
    s.Used? && !s.standby
  }

  /** All devices of active streams. */
  function Devices(slots: seq<Slot>): set<OutDevice> {
    if slots == [] then {}
    else Devices(slots[..|slots| - 1]) + if Active(slots[|slots| - 1]) then slots[|slots| - 1].device else {}
  }

  function Count(slots: seq<Slot>): nat {
    if slots == [] then 0 else Count(slots[..|slots| - 1]) + if Active(slots[|slots| - 1]) then 1 else 0
  }

  /** The PCMs that active streams hold open. */
  function Pcms(slots: seq<Slot>): nat {
    if slots == [] then 0
    else Pcms(slots[..|slots| - 1]) + if Active(slots[|slots| - 1]) && slots[|slots| - 1].pcm.OpenPcm? then 1 else 0
  }

  lemma {:induction false} CountChange(slots: seq<Slot>, k: nat, s: Slot)
    requires k < |slots|
    ensures Count(slots[k := s]) + (if Active(slots[k]) then 1 else 0) == Count(slots) + if Active(s) then 1 else 0
  {
    var n := |slots| - 1;
    if k < n {
      CountChange(slots[..n], k, s);
      assert slots[k := s][..n] == slots[..n][k := s];
    } else {
      assert slots[k := s][..n] == slots[..n];
    }
  }

  lemma {:induction false} NoneActive(slots: seq<Slot>)
    requires Count(slots) == 0
    ensures Devices(slots) == {} && Pcms(slots) == 0
    ensures forall k | 0 <= k < |slots| :: !Active(slots[k])
  {
    if slots != [] {
      NoneActive(slots[..|slots| - 1]);
    }
  }

  lemma {:induction false} OneActive(slots: seq<Slot>, k: nat)
    requires k < |slots| && Active(slots[k]) && Count(slots) <= 1
    ensures Count(slots) == 1
    ensures Devices(slots) == slots[k].device && Pcms(slots) == if slots[k].pcm.OpenPcm? then 1 else 0
  {
    var n := |slots| - 1;
    if k < n {
      OneActive(slots[..n], k);
    } else {
      NoneActive(slots[..n]);
    }
  }

  /** With at most one stream active, the counts and the devices say which. */
  lemma AfterChange(slots: seq<Slot>, k: nat, s: Slot)
    requires k < |slots| && Count(slots) <= 1 && (Active(s) ==> Active(slots[k]) || Count(slots) == 0)
    ensures var after := slots[k := s];
            Active(s) ==> Count(after) == 1 && Devices(after) == s.device
                          && Pcms(after) == if s.pcm.OpenPcm? then 1 else 0
    ensures Active(slots[k]) ==> Count(slots) == 1 && Devices(slots) == slots[k].device
                                 && Pcms(slots) == if slots[k].pcm.OpenPcm? then 1 else 0
    ensures var after := slots[k := s];
            Active(slots[k]) && !Active(s) ==> Count(after) == 0 && Devices(after) == {} && Pcms(after) == 0
  {
    var after := slots[k := s];
    CountChange(slots, k, s);
    if Active(s) {
      OneActive(after, k);
    }
    if Active(slots[k]) {
      OneActive(slots, k);
      if !Active(s) {
        NoneActive(after);
      }
    }
  }

  /** A slot that is not active can be changed for another. */
  lemma {:induction false} IdleChange(slots: seq<Slot>, k: nat, s: Slot)
    requires k < |slots| && !Active(slots[k]) && !Active(s)
    ensures Count(slots[k := s]) == Count(slots)
    ensures Devices(slots[k := s]) == Devices(slots) && Pcms(slots[k := s]) == Pcms(slots)
  {
    var n := |slots| - 1;
    if k < n {
      IdleChange(slots[..n], k, s);
      assert slots[k := s][..n] == slots[..n][k := s];
    } else {
      assert slots[k := s][..n] == slots[..n];
    }
  }

  // ----- The streams themselves -----

  class StreamOut {
    var device: set<OutDevice>
    var standby: bool
    var pcm: Handle
    /** The frames written, as far as anybody counts them. */
    const written: nat := 0

    constructor (device: set<OutDevice>)
      ensures this.device == device && standby && pcm == NoPcm
    {
      this.device, standby, pcm := device, true, NoPcm;
    }
  }

  /** What pcm_open comes back with: a device that works, one that reports an error, or nothing at all. */
  datatype PcmOpen = Ready | NotReady | Nothing

  function Opened(open: PcmOpen): Handle {
    match open
    case Ready => OpenPcm
    case NotReady => ClosedPcm
    case Nothing => NoPcm
  }

  function SlotOf(o: StreamOut?): Slot
    reads o
  {
    if o == null then Empty else Used(o.device, o.standby, o.pcm)
  }

  class Hal {
    const adev: AudioDevice
    var outputs: seq<StreamOut?>
    var refcount: nat
    var openPcms: nat

    function Slots(): (s: seq<Slot>)
      reads this, set k | 0 <= k < |outputs| :: outputs[k]
      ensures |s| == |outputs|
    {
      seq(|outputs|, k requires 0 <= k < |outputs| reads this, set k | 0 <= k < |outputs| :: outputs[k] =>
        SlotOf(outputs[k]))
    }

    /** Every stream is in one slot; one at most has the card; the devices in use are those of the active streams;
        every open PCM belongs to an active stream, and every closed one to a stream in standby. */
    ghost predicate Streams()
      reads this, adev, set k | 0 <= k < |outputs| :: outputs[k]
    {
      && |outputs| == OUTPUT_TOTAL
      && (forall i, j | 0 <= i < j < OUTPUT_TOTAL && outputs[i] != null :: outputs[i] != outputs[j])
      && (forall k | 0 <= k < OUTPUT_TOTAL && outputs[k] != null ::
            && outputs[k].device != {}
            && if outputs[k].standby then !outputs[k].pcm.OpenPcm? else !outputs[k].pcm.ClosedPcm?)
      && refcount == Count(Slots()) <= 1
      && openPcms == Pcms(Slots())
      && adev.outDevice == Devices(Slots())
    }

    /** The mixer was told of the devices in use, unless there are none. */
    ghost predicate Told()
      reads adev
    {
      var h := adev.history;
      && (adev.outDevice != {} ==> h != [] && h[|h| - 1] == adev.Current())
      && (h != [] ==> h[|h| - 1] == adev.Current() || h[|h| - 1].(out := {}) == adev.Current())
    }

    ghost predicate Valid()
      reads this, adev, adev.ar, adev.ar.mixer, adev.ar.oldValue, adev.ar.newValue, adev.ar.resetValue, adev.ar.paths
      reads set k | 0 <= k < |outputs| :: outputs[k]
    {
      adev.Valid() && Streams() && Told()
    }

    constructor (adev: AudioDevice)
      requires adev.Valid() && adev.history == [] && adev.outDevice == {}
      ensures this.adev == adev && Valid() && outputs == [null, null, null]
    {
      this.adev, outputs, refcount, openPcms := adev, [null, null, null], 0, 0;
      new;
      assert Slots() == [Empty, Empty, Empty];
      IdleTable();
    }

    /** The table without one stream. */
    ghost function Others(out: StreamOut?): seq<Slot>
      reads this, set k | 0 <= k < |outputs| :: outputs[k]
    {
      seq(|outputs|, k requires 0 <= k < |outputs| reads this, set k | 0 <= k < |outputs| :: outputs[k] =>
        if outputs[k] == out then Empty else SlotOf(outputs[k]))
    }

    method OutputDevices(out: StreamOut) returns (devices: set<OutDevice>)
      ensures devices == Devices(Others(out))
    {
      devices := {};
      for kind := 0 to |outputs|
        invariant devices == Devices(Others(out)[..kind])
      {
        var other := outputs[kind];
        assert Others(out)[..kind + 1][..kind] == Others(out)[..kind];
        if other != null && other != out && !other.standby {
          devices := devices + other.device;
        }
      }
      assert Others(out)[..|outputs|] == Others(out);
    }

    ghost function SlotIndex(out: StreamOut): (k: nat)
      requires out in outputs
      reads this
      ensures k < |outputs| && outputs[k] == out
    {
      var k :| 0 <= k < |outputs| && outputs[k] == out; k
    }

    /** A device that is not ready is closed, and the stream goes on pointing at it. */
    method PcmOutputStart(out: StreamOut, open: PcmOpen) returns (ret: int)
      requires adev.Valid() && Told()
      modifies this`refcount, this`openPcms, out`pcm, adev`outDevice, adev`curRouteId, adev`history
      modifies adev.ar.mixer, adev.ar.oldValue, adev.ar.newValue
      ensures adev.Valid() && Told()
      ensures ret == if old(refcount) > 0 then -1 else if open.NotReady? then -ENOMEM else 0
      ensures ret < 0 ==> refcount == old(refcount) && openPcms == old(openPcms)
                          && adev.outDevice == old(adev.outDevice)
      ensures ret == 0 ==> refcount == 1 && adev.outDevice == old(adev.outDevice) + out.device
                           && openPcms == old(openPcms) + if out.pcm.OpenPcm? then 1 else 0
      ensures out.pcm == if old(refcount) > 0 then old(out.pcm) else Opened(open)
      ensures adev.history == old(adev.history) + if ret == 0 then [adev.Current()] else []
    {
      hide AudioDevice.Valid;
      if refcount > 0 {
        return -1;
      }
      match open {
        case NotReady =>
          out.pcm := ClosedPcm;
          return -ENOMEM;
        case Ready => out.pcm, openPcms := OpenPcm, openPcms + 1;
        case Nothing => out.pcm := NoPcm;
      }
      refcount := refcount + 1;
      UseDevices(adev.outDevice + out.device);
      return 0;
    }

    /** out_device changes and the mixer is told. */
    method UseDevices(devices: set<OutDevice>)
      requires adev.Valid()
      modifies adev`outDevice, adev`curRouteId, adev`history
      modifies adev.ar.mixer, adev.ar.oldValue, adev.ar.newValue
      ensures adev.Valid() && Told() && adev.outDevice == devices
      ensures adev.history == old(adev.history) + [adev.Current()]
    {
      hide RouteId, Head, AudioDevice.Routed;
      adev.outDevice := devices;
      adev.SelectDevices();
    }

    /** A stream in standby starts first; it stays in standby if the card is taken or does not open. */
    method OutWrite(out: StreamOut, open: PcmOpen) returns (ret: int)
      requires Valid() && out in outputs
      modifies this`refcount, this`openPcms, out`pcm, out`standby, adev`outDevice, adev`curRouteId, adev`history
      modifies adev.ar.mixer, adev.ar.oldValue, adev.ar.newValue
      ensures Valid()
      ensures ret < 0 <==> old(out.standby) && (old(refcount) == 1 || open.NotReady?)
      ensures out.standby <==> ret < 0
      ensures out.pcm == if old(out.standby) && old(refcount) == 0 then Opened(open) else old(out.pcm)
      ensures adev.history == old(adev.history) + if old(out.standby) && ret == 0 then [adev.Current()] else []
    {
      hide AudioDevice.Valid, Count, Devices, Pcms, Told;
      ghost var k, before := SlotIndex(out), Slots();
      ret := 0;
      if out.standby {
        ret := PcmOutputStart(out, open);
        if ret < 0 {
          IdleChange(before, k, Used(out.device, true, out.pcm));
          assert Slots() == before[k := Used(out.device, true, out.pcm)];
          return;
        }
        out.standby := false;
        assert Slots() == before[k := Used(out.device, false, out.pcm)];
        NoneActive(before);
        AfterChange(before, k, Slots()[k]);
      }
    }

    method DoOutputStandby(out: StreamOut)
      requires Valid() && out in outputs
      modifies this`refcount, this`openPcms, out`pcm, out`standby, adev`outDevice, adev`curRouteId, adev`history
      modifies adev.ar.mixer, adev.ar.oldValue, adev.ar.newValue
      ensures Valid() && out.standby
      ensures old(out.standby) ==> refcount == old(refcount) && openPcms == old(openPcms)
                                   && adev.outDevice == old(adev.outDevice) && out.pcm == old(out.pcm)
      ensures !old(out.standby) ==> refcount == 0 && openPcms == 0 && adev.outDevice == {} && out.pcm == NoPcm
      ensures adev.history == old(adev.history) && unchanged(adev.ar.mixer)
    {
      hide AudioDevice.Valid, Count, Devices, Pcms, Told;
      if !out.standby {
        LeaveCard(out);
        var devices := OutputDevices(out);
        KeepDevices(devices);
      }
    }

    /** An active stream gives up the card and its PCM. */
    method LeaveCard(out: StreamOut)
      requires Streams() && out in outputs && !out.standby
      modifies this`refcount, this`openPcms, out`pcm, out`standby
      ensures out.standby && out.pcm == NoPcm && refcount == openPcms == 0
      ensures Count(Slots()) == 0 && Pcms(Slots()) == 0 && Devices(Slots()) == Devices(Others(out)) == {}
    {
      hide Count, Devices, Pcms;
      ghost var k, before := SlotIndex(out), Slots();
      AfterChange(before, k, Used(out.device, true, NoPcm));
      AfterChange(before, k, Empty);
      if refcount == 1 && out.pcm.OpenPcm? {
        openPcms := openPcms - 1;
      }
      refcount := refcount - 1;
      out.pcm := NoPcm;
      out.standby := true;
      assert Slots() == before[k := Used(out.device, true, NoPcm)];
      assert Others(out) == before[k := Empty];
    }

    /** The set of active devices is calculated again; the mixer is left alone if it is empty. */
    method KeepDevices(devices: set<OutDevice>)
      requires adev.Valid() && Told()
      modifies adev`outDevice, adev`curRouteId, adev`history
      modifies adev.ar.mixer, adev.ar.oldValue, adev.ar.newValue
      ensures adev.Valid() && adev.outDevice == devices && (devices <= old(adev.outDevice) ==> Told())
      ensures devices == {} ==> adev.history == old(adev.history) && unchanged(adev.ar.mixer)
      ensures devices != {} ==> adev.history == old(adev.history) + [adev.Current()]
    {
      adev.outDevice := devices;
      if adev.outDevice != {} {
        adev.SelectDevices();
      }
    }

    /** routing=val of out_set_parameters; no other key matters. */
    method OutSetParameters(out: StreamOut, routing: Option<set<OutDevice>>)
      requires Valid() && out in outputs
      modifies this`refcount, this`openPcms, out, adev`outDevice, adev`curRouteId, adev`history
      modifies adev.ar.mixer, adev.ar.oldValue, adev.ar.newValue
      ensures Valid()
      ensures out.device == if routing.Some? && routing.value != {} then routing.value else old(out.device)
      ensures out.standby
              == (old(out.standby)
                  || (routing.Some? && routing.value != {} && routing.value != old(out.device)
                      && (AUX_DIGITAL in routing.value || AUX_DIGITAL in old(adev.outDevice))))
      ensures adev.history == old(adev.history) + if !out.standby && out.device != old(out.device) then [adev.Current()]
                                                  else []
    {
      hide AudioDevice.Valid, Count, Devices, Pcms;
      if routing.Some? {
        var val := routing.value;
        if out.device != val && val != {} {
          if (AUX_DIGITAL in val) != (AUX_DIGITAL in adev.outDevice) || AUX_DIGITAL in adev.outDevice {
            DoOutputStandby(out);
          }
          Move(out, val);
        }
      }
    }

    method Move(out: StreamOut, val: set<OutDevice>)
      requires Valid() && out in outputs && val != {}
      modifies out`device, adev`outDevice, adev`curRouteId, adev`history
      modifies adev.ar.mixer, adev.ar.oldValue, adev.ar.newValue
      ensures Valid() && out.device == val
      ensures adev.history == old(adev.history) + if out.standby then [] else [adev.Current()]
    {
      if !out.standby {
        MoveActive(out, val);
      } else {
        MoveIdle(out, val);
      }
    }

    /** Beside an active stream no other one uses a device. */
    lemma NoOthers(out: StreamOut)
      requires Streams() && out in outputs && !out.standby
      ensures Devices(Others(out)) == {}
    {
      hide Count, Devices, Pcms;
      var k := SlotIndex(out);
      AfterChange(Slots(), k, Empty);
      assert Others(out) == Slots()[k := Empty];
    }

    method MoveActive(out: StreamOut, val: set<OutDevice>)
      requires Valid() && out in outputs && val != {} && !out.standby
      modifies out`device, adev`outDevice, adev`curRouteId, adev`history
      modifies adev.ar.mixer, adev.ar.oldValue, adev.ar.newValue
      ensures Valid() && out.device == val && adev.history == old(adev.history) + [adev.Current()]
    {
      hide AudioDevice.Valid, Count, Devices, Pcms, Told, Others;
      ghost var k, before := SlotIndex(out), Slots();
      NoOthers(out);
      AfterChange(before, k, Used(val, false, out.pcm));
      var devices := OutputDevices(out);
      UseDevices(devices + val);
      out.device := val;
      assert Slots() == before[k := Used(val, false, out.pcm)];
    }

    method MoveIdle(out: StreamOut, val: set<OutDevice>)
      requires Valid() && out in outputs && val != {} && out.standby
      modifies out`device
      ensures Valid() && out.device == val
    {
      hide AudioDevice.Valid, Count, Devices, Pcms;
      ghost var k, before := SlotIndex(out), Slots();
      IdleChange(before, k, Used(val, true, out.pcm));
      out.device := val;
      assert Slots() == before[k := Used(val, true, out.pcm)];
    }

    /** out_get_presentation_position: the driver is asked whenever there is a handle, also one that was closed. Since
        nothing counts what was written, a driver whose buffer has at most its own size of room gives a position only
        when that is empty, and then it is zero. */
    method GetPresentationPosition(out: StreamOut, kernelBuffer: nat, avail: Option<nat>)
      returns (ret: int, frames: nat, asked: Handle)
      requires Valid() && out in outputs
      ensures asked == out.pcm && (asked == ClosedPcm ==> out.standby)
      ensures ret == 0 <==> asked != NoPcm && avail.Some? && kernelBuffer <= avail.value
      ensures ret == 0 ==> frames == avail.value - kernelBuffer
      ensures ret == 0 && avail.value <= kernelBuffer ==> frames == 0 && avail.value == kernelBuffer
    {
      ret, frames, asked := -1, 0, NoPcm;
      if out.pcm != NoPcm {
        asked := out.pcm;
        if avail.Some? {
          var signedFrames := out.written - kernelBuffer + avail.value;
          if signedFrames >= 0 {
            ret, frames := 0, signedFrames;
          }
        }
      }
    }

    /** configured says whether the card's parameters could be read. */
    method OpenOutputStream(devices: set<OutDevice>, deep: bool, configured: bool)
      returns (ret: int, stream: StreamOut?)
      requires Valid()
      modifies this`outputs
      ensures Valid()
      ensures var kind := if deep then OUTPUT_DEEP_BUF else OUTPUT_LOW_LATENCY;
        && ret == (if !configured then -EINVAL else if old(outputs)[kind] != null then -EBUSY else 0)
        && (ret < 0 ==> stream == null && outputs == old(outputs))
        && (ret == 0 ==> stream != null && fresh(stream) && outputs == old(outputs)[kind := stream] && stream.standby
                         && stream.device == if devices == {} then {SPEAKER} else devices)
    {
      hide AudioDevice.Valid, Count, Devices, Pcms;
      var out := new StreamOut(if devices == {} then {SPEAKER} else devices);
      var kind := if deep then OUTPUT_DEEP_BUF else OUTPUT_LOW_LATENCY;
      if !configured {
        return -EINVAL, null;
      }
      if outputs[kind] != null {
        return -EBUSY, null;
      }
      ghost var before := Slots();
      IdleChange(before, kind, SlotOf(out));
      outputs := outputs[kind := out];
      assert Slots() == before[kind := SlotOf(out)];
      return 0, out;
    }

    method CloseOutputStream(out: StreamOut)
      requires Valid() && out in outputs
      modifies this`outputs, this`refcount, this`openPcms, out, adev`outDevice, adev`curRouteId, adev`history
      modifies adev.ar.mixer, adev.ar.oldValue, adev.ar.newValue
      ensures Valid() && out !in outputs && adev.history == old(adev.history) && unchanged(adev.ar.mixer)
      ensures forall k | 0 <= k < OUTPUT_TOTAL :: outputs[k] == if old(outputs)[k] == out then null else old(outputs)[k]
    {
      hide AudioDevice.Valid, Count, Devices, Pcms;
      DoOutputStandby(out);
      ghost var k, before := SlotIndex(out), Slots();
      for kind := 0 to OUTPUT_TOTAL
        invariant outputs == old(outputs) && out !in outputs[..kind]
        invariant Valid() && out.standby && Slots() == before
        invariant adev.history == old(adev.history) && unchanged(adev.ar.mixer)
      {
        if outputs[kind] == out {
          IdleChange(before, kind, Empty);
          outputs := outputs[kind := null];
          assert Slots() == before[kind := Empty];
          return;
        }
      }
    }

    /** What input streams do when they start, stop or move: source and device change, and the mixer is told. */
    method InputSelect(source: Source, input: InDevice)
      requires Valid()
      modifies adev`inputSource, adev`inDevice, adev`curRouteId, adev`history
      modifies adev.ar.mixer, adev.ar.oldValue, adev.ar.newValue
      ensures Valid() && adev.inputSource == source && adev.inDevice == input
      ensures adev.history == old(adev.history) + [adev.Current()]
    {
      hide AudioDevice.Valid, Count, Devices, Pcms;
      ghost var before := Slots();
      UseInput(source, input);
      assert Slots() == before;
    }

    method UseInput(source: Source, input: InDevice)
      requires adev.Valid()
      modifies adev`inputSource, adev`inDevice, adev`curRouteId, adev`history
      modifies adev.ar.mixer, adev.ar.oldValue, adev.ar.newValue
      ensures adev.Valid() && Told() && adev.inputSource == source && adev.inDevice == input
      ensures adev.history == old(adev.history) + [adev.Current()]
    {
      hide RouteId, Head, AudioDevice.Routed;
      adev.inputSource, adev.inDevice := source, input;
      adev.SelectDevices();
    }
  }

  /** In every reachable state with a known output in use, whatever was opened, closed, started or re-routed before,
      the mixer holds the saved state under the paths of exactly the devices and the source in use. */
  lemma MixerFollows(hal: Hal)
    requires hal.Valid() && OutputDeviceId(hal.adev.outDevice) != OUT_DEVICE_NONE
    ensures hal.adev.ar.mixer.regs == hal.adev.Routed(hal.adev.Current())
  {
    hide AudioDevice.Valid, AudioDevice.Routed, Overlay, RouteId, Head, Count, Devices, Pcms;
    HistoryIndependent(hal.adev);
  }

  /** The card is taken exactly when some stream is active, and then that stream's devices are the ones in use. */
  lemma OneUser(hal: Hal, k: nat)
    requires hal.Valid() && k < OUTPUT_TOTAL && hal.outputs[k] != null && !hal.outputs[k].standby
    ensures hal.refcount == 1 && hal.adev.outDevice == hal.outputs[k].device
    ensures hal.openPcms == if hal.outputs[k].pcm.OpenPcm? then 1 else 0
    ensures forall j | 0 <= j < OUTPUT_TOTAL && j != k && hal.outputs[j] != null :: hal.outputs[j].standby
  {
    hide Devices, Pcms;
    var slots := hal.Slots();
    OneActive(slots, k);
    forall j | 0 <= j < OUTPUT_TOTAL && j != k ensures !Active(slots[j]) {
      CountChange(slots, k, Empty);
      NoneActive(slots[k := Empty]);
      assert slots[j] == slots[k := Empty][j];
    }
    forall j | 0 <= j < OUTPUT_TOTAL && j != k && hal.outputs[j] != null ensures hal.outputs[j].standby {
      assert slots[j] == SlotOf(hal.outputs[j]);
    }
  }

  lemma IdleTable()
    ensures Count([Empty, Empty, Empty]) == 0
    ensures Devices([Empty, Empty, Empty]) == {} && Pcms([Empty, Empty, Empty]) == 0
  {
    var t := [Empty, Empty, Empty];
    assert t[..2] == [Empty, Empty] && t[..2][..1] == [Empty];
    assert Count([Empty]) == 0 && Count([Empty, Empty]) == 0;
    NoneActive(t);
  }
}
