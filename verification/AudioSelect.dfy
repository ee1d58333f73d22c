/** Choosing the mixer paths for the devices in use (select_devices in audio/audio_hw.c). */
module AudioSelect {
  import opened AudioRoute
  import opened Options

  /** One bit of a device mask; a mask is the set of its bits. */
  datatype OutDevice = SPEAKER | WIRED_HEADSET | WIRED_HEADPHONE | OTHER_OUT(bit: nat)

  datatype InDevice = IN_WIRED_HEADSET | OTHER_IN

  datatype Source = DEFAULT | MIC | CAMCORDER | VOICE_RECOGNITION | VOICE_COMMUNICATION | OTHER_SOURCE

  const OUT_DEVICE_SPEAKER := 0
  const OUT_DEVICE_HEADSET := 1
  const OUT_DEVICE_HEADPHONES := 2
  const OUT_DEVICE_SPEAKER_AND_HEADSET := 3
  const OUT_DEVICE_NONE := 5
  const OUT_DEVICE_CNT := 6

  const IN_SOURCE_MIC := 0
  const IN_SOURCE_CAMCORDER := 1
  const IN_SOURCE_VOICE_RECOGNITION := 2
  const IN_SOURCE_VOICE_COMMUNICATION := 3
  const IN_SOURCE_NONE := 5

  function OutputDeviceId(device: set<OutDevice>): nat {
    if device == {} then OUT_DEVICE_NONE
    else if |device| == 2 then
      if device == {SPEAKER, WIRED_HEADSET} || device == {SPEAKER, WIRED_HEADPHONE} then OUT_DEVICE_SPEAKER_AND_HEADSET
      else OUT_DEVICE_NONE
    else if |device| != 1 then OUT_DEVICE_NONE
    else if device == {SPEAKER} then OUT_DEVICE_SPEAKER
    else if device == {WIRED_HEADSET} then OUT_DEVICE_HEADSET
    else if device == {WIRED_HEADPHONE} then OUT_DEVICE_HEADPHONES
    else OUT_DEVICE_NONE
  }

  function InputSourceId(source: Source): nat {
    match source
    case MIC => IN_SOURCE_MIC
    case CAMCORDER => IN_SOURCE_CAMCORDER
    case VOICE_RECOGNITION => IN_SOURCE_VOICE_RECOGNITION
    case VOICE_COMMUNICATION => IN_SOURCE_VOICE_COMMUNICATION
    case _ => IN_SOURCE_NONE
  }

  datatype RouteConfig = RouteConfig(output: string, input: string)

  /** route_configs[source][device] */
  function Config(source: nat, device: nat): RouteConfig
    requires source < 4 && device < 4
  {
    if device == OUT_DEVICE_SPEAKER_AND_HEADSET then RouteConfig("speaker-and-headphones", "main-mic")
    else if source == IN_SOURCE_MIC then
      if device == OUT_DEVICE_SPEAKER then RouteConfig("media-speaker", "media-main-mic")
      else if device == OUT_DEVICE_HEADSET then RouteConfig("media-headphones", "media-headset-mic")
      else RouteConfig("media-headphones", "media-main-mic")
    else if source == IN_SOURCE_CAMCORDER then
      if device == OUT_DEVICE_SPEAKER then RouteConfig("media-speaker", "media-second-mic")
      else RouteConfig("media-headphones", "media-second-mic")
    else if source == IN_SOURCE_VOICE_RECOGNITION then
      if device == OUT_DEVICE_SPEAKER then RouteConfig("voice-rec-speaker", "voice-rec-main-mic")
      else if device == OUT_DEVICE_HEADSET then RouteConfig("voice-rec-headphones", "voice-rec-headset-mic")
      else RouteConfig("voice-rec-headphones", "voice-rec-main-mic")
    else
      if device == OUT_DEVICE_SPEAKER then RouteConfig("communication-speaker", "communication-main-mic")
      else if device == OUT_DEVICE_HEADSET then RouteConfig("communication-headphones", "communication-headset-mic")
      else RouteConfig("communication-headphones", "communication-main-mic")
  }

  /** What select_devices looks at. */
  datatype Request = Request(out: set<OutDevice>, source: Source, input: InDevice)

  function OutputRoute(r: Request): Option<string> {
    var device, source := OutputDeviceId(r.out), InputSourceId(r.source);
    if device == OUT_DEVICE_NONE then None
    else Some(Config(if source == IN_SOURCE_NONE then IN_SOURCE_MIC else source, device).output)
  }

  function InputRoute(r: Request): Option<string> {
    var device, source := OutputDeviceId(r.out), InputSourceId(r.source);
    if source == IN_SOURCE_NONE then None
    else if device != OUT_DEVICE_NONE then Some(Config(source, device).input)
    else Some(Config(source, if r.input == IN_WIRED_HEADSET then OUT_DEVICE_HEADSET else OUT_DEVICE_SPEAKER).input)
  }

  function Scenario(source: Source): string {
    match source
    case VOICE_RECOGNITION => "voice-rec"
    case VOICE_COMMUNICATION => "communication"
    case _ => "media"
  }

  /** The names of the output paths: a speaker with anything wired has one of its own, a single known device that of
      its scenario, and nothing else has one. */
  lemma OutputNames(r: Request)
    ensures OutputRoute(r) ==
            if r.out == {SPEAKER, WIRED_HEADSET} || r.out == {SPEAKER, WIRED_HEADPHONE} then
              Some("speaker-and-headphones")
            else if r.out == {SPEAKER} then Some(Scenario(r.source) + "-speaker")
            else if r.out == {WIRED_HEADSET} || r.out == {WIRED_HEADPHONE} then
              Some(Scenario(r.source) + "-headphones")
            else None
  {
    OutputIds(r.out);
    hide OutputDeviceId;
    assert "media" + "-speaker" == "media-speaker" && "media" + "-headphones" == "media-headphones";
    assert "voice-rec" + "-speaker" == "voice-rec-speaker" && "voice-rec" + "-headphones" == "voice-rec-headphones";
    assert "communication" + "-speaker" == "communication-speaker";
    assert "communication" + "-headphones" == "communication-headphones";
  }

  /** And those of the input paths: only four sources have any; both speaker and something wired give the main
      microphone, the camcorder has the second one, and the others take that of the headset where it is the output, or,
      without a known output, the input. */
  lemma InputNames(r: Request)
    ensures InputRoute(r) ==
            if r.source == DEFAULT || r.source == OTHER_SOURCE then None
            else if r.out == {SPEAKER, WIRED_HEADSET} || r.out == {SPEAKER, WIRED_HEADPHONE} then Some("main-mic")
            else if r.source == CAMCORDER then Some("media-second-mic")
            else
              var known := r.out == {SPEAKER} || r.out == {WIRED_HEADSET} || r.out == {WIRED_HEADPHONE};
              var headset := if known then r.out == {WIRED_HEADSET} else r.input == IN_WIRED_HEADSET;
              Some(Scenario(r.source) + if headset then "-headset-mic" else "-main-mic")
  {
    OutputIds(r.out);
    hide OutputDeviceId;
    InputsSpelled();
  }

  lemma InputsSpelled()
    ensures "media" + "-headset-mic" == "media-headset-mic" && "media" + "-main-mic" == "media-main-mic"
    ensures "voice-rec" + "-headset-mic" == "voice-rec-headset-mic"
    ensures "voice-rec" + "-main-mic" == "voice-rec-main-mic"
    ensures "communication" + "-headset-mic" == "communication-headset-mic"
    ensures "communication" + "-main-mic" == "communication-main-mic"
  {
  }

  lemma OutputIds(out: set<OutDevice>)
    ensures OutputDeviceId(out) ==
            if out == {SPEAKER, WIRED_HEADSET} || out == {SPEAKER, WIRED_HEADPHONE} then 3
            else if out == {SPEAKER} then 0
            else if out == {WIRED_HEADSET} then 1
            else if out == {WIRED_HEADPHONE} then 2
            else 5
    ensures SPEAKER != WIRED_HEADSET && {SPEAKER} != {WIRED_HEADSET} && {SPEAKER} != {WIRED_HEADPHONE}
    ensures {WIRED_HEADSET} != {WIRED_HEADPHONE}
  {
    assert |{SPEAKER, WIRED_HEADSET}| == 2 && |{SPEAKER, WIRED_HEADPHONE}| == 2;
    assert SPEAKER in {SPEAKER} && SPEAKER !in {WIRED_HEADSET} && SPEAKER !in {WIRED_HEADPHONE};
    assert WIRED_HEADSET in {WIRED_HEADSET} && WIRED_HEADSET !in {WIRED_HEADPHONE};
  }

  function Pow2(n: nat): (p: nat)
    ensures p > 0
  {
    if n == 0 then 1 else 2 * Pow2(n - 1)
  }

  function RouteId(r: Request): (id: nat)
    ensures id != 0
  {
    Pow2(InputSourceId(r.source) + OUT_DEVICE_CNT) + Pow2(OutputDeviceId(r.out))
  }

  lemma Powers()
    ensures Pow2(0) == 1 && Pow2(1) == 2 && Pow2(2) == 4 && Pow2(3) == 8 && Pow2(5) == 32
    ensures Pow2(6) == 64 && Pow2(7) == 128 && Pow2(8) == 256 && Pow2(9) == 512 && Pow2(11) == 2048
  {
    assert Pow2(5) == 2 * Pow2(4);
    assert Pow2(7) == 2 * Pow2(6);
    assert Pow2(9) == 2 * Pow2(8);
    assert Pow2(11) == 2 * Pow2(10);
  }

  /** The route id tells the two ids apart. */
  lemma RouteIdInjective(a: Request, b: Request)
    ensures RouteId(a) == RouteId(b) <==>
            InputSourceId(a.source) == InputSourceId(b.source) && OutputDeviceId(a.out) == OutputDeviceId(b.out)
  {
    hide OutputDeviceId, Pow2;
    Powers();
    DeviceIds(a.out);
    DeviceIds(b.out);
  }

  lemma DeviceIds(device: set<OutDevice>)
    ensures OutputDeviceId(device) in {0, 1, 2, 3, 5}
  {
  }

  /** A source with no output: only then the input device matters, and the id leaves it out. */
  predicate InputOnly(r: Request) {
    OutputDeviceId(r.out) == OUT_DEVICE_NONE && InputSourceId(r.source) != IN_SOURCE_NONE
  }

  /** Requests with the same id take the same paths, but for the one thing the id leaves out: where the microphone
      of a recording without output is. The camcorder has the same one in both places. */
  lemma SameIdSamePaths(a: Request, b: Request)
    requires RouteId(a) == RouteId(b)
    ensures OutputRoute(a) == OutputRoute(b)
    ensures InputRoute(a) == InputRoute(b) <==>
            (InputOnly(b) && b.source != CAMCORDER ==> (a.input == IN_WIRED_HEADSET <==> b.input == IN_WIRED_HEADSET))
  {
    RouteIdInjective(a, b);
    hide OutputDeviceId, RouteId;
    DeviceIds(a.out);
    assert InputRoute(b).Some? ==> |InputRoute(b).value| > 0;
    DifferentMics(InputSourceId(b.source));
  }

  lemma DifferentMics(source: nat)
    requires source == 0 || source == 2 || source == 3 || source == 1 || source == 5
    ensures source in {0, 2, 3} ==> Config(source, OUT_DEVICE_HEADSET).input != Config(source, OUT_DEVICE_SPEAKER).input
    ensures source == 1 ==> Config(source, OUT_DEVICE_HEADSET).input == Config(source, OUT_DEVICE_SPEAKER).input
  {
    assert "media-headset-mic"[6] != "media-main-mic"[6];
    assert "voice-rec-headset-mic"[10] != "voice-rec-main-mic"[10];
    assert "communication-headset-mic"[14] != "communication-main-mic"[14];
  }

  /** The request whose paths were applied last: calls that ask for the same id again are skipped. */
  function Head(history: seq<Request>): Request
    requires history != []
  {
    var n := |history| - 1;
    if n > 0 && RouteId(history[n]) == RouteId(history[n - 1]) then Head(history[..n]) else history[n]
  }

  lemma {:induction false} HeadHasSameId(history: seq<Request>)
    requires history != []
    ensures RouteId(Head(history)) == RouteId(history[|history| - 1])
  {
    hide RouteId;
    var n := |history| - 1;
    if n > 0 && RouteId(history[n]) == RouteId(history[n - 1]) {
      HeadHasSameId(history[..n]);
    }
  }

  class AudioDevice {
    const ar: AudioRoute
    var outDevice: set<OutDevice>
    var inDevice: InDevice
    var inputSource: Source
    var curRouteId: nat
    ghost var history: seq<Request>

    function Sets(route: Option<string>): seq<Setting>
      reads ar, ar.paths
    {
      match route
      case Some(name) => ar.Sets(name)
      case None => []
    }

    /** The mixer with a request's paths laid over the saved state: the output's first, then the input's. */
    function Routed(r: Request): seq<Values>
      reads ar, ar.paths, ar.resetValue
    {
      Overlay(Overlay(ar.resetValue[..], Sets(OutputRoute(r))), Sets(InputRoute(r)))
    }

    function Current(): Request
      reads this
    {
      Request(outDevice, inputSource, inDevice)
    }

    ghost predicate Valid()
      reads this, ar, ar.mixer, ar.oldValue, ar.newValue, ar.resetValue, ar.paths
    {
      && ar.Valid()
      && (history == [] ==> curRouteId == 0)
      && (history != [] ==> curRouteId == RouteId(history[|history| - 1]) && ar.mixer.regs == Routed(Head(history)))
    }

    constructor (ar: AudioRoute)
      requires ar.Valid()
      ensures this.ar == ar && Valid() && history == [] && outDevice == {}
    {
      this.ar, outDevice, inDevice, inputSource, curRouteId, history := ar, {}, OTHER_IN, DEFAULT, 0, [];
    }

    method ChooseRoutes() returns (outputRoute: Option<string>, inputRoute: Option<string>)
      ensures outputRoute == OutputRoute(Current()) && inputRoute == InputRoute(Current())
    {
      hide OutputDeviceId, Config;
      DeviceIds(outDevice);
      var outputDeviceId, inputSourceId := OutputDeviceId(outDevice), InputSourceId(inputSource);
      outputRoute, inputRoute := None, None;
      if inputSourceId != IN_SOURCE_NONE {
        if outputDeviceId != OUT_DEVICE_NONE {
          inputRoute := Some(Config(inputSourceId, outputDeviceId).input);
          outputRoute := Some(Config(inputSourceId, outputDeviceId).output);
        } else {
          match inDevice {
            case IN_WIRED_HEADSET => outputDeviceId := OUT_DEVICE_HEADSET;
            case OTHER_IN => outputDeviceId := OUT_DEVICE_SPEAKER;
          }
          inputRoute := Some(Config(inputSourceId, outputDeviceId).input);
        }
      } else if outputDeviceId != OUT_DEVICE_NONE {
        outputRoute := Some(Config(IN_SOURCE_MIC, outputDeviceId).output);
      }
    }

    /** A request with the id of the one before is skipped; any other leaves nothing of it behind. */
    method SelectDevices()
      requires Valid()
      modifies this`curRouteId, this`history, ar.mixer, ar.oldValue, ar.newValue
      ensures Valid() && history == old(history) + [Current()]
      ensures old(curRouteId) == RouteId(Current()) ==> ar.mixer.writes == old(ar.mixer.writes)
    {
      hide Overlay, RouteId, OutputRoute, InputRoute;
      ghost var before := history;
      ar.Reset();
      history := history + [Current()];
      assert history[..|history| - 1] == before;
      var newRouteId := RouteId(Current());
      if newRouteId == curRouteId {
        return;
      }
      curRouteId := newRouteId;
      assert Head(history) == Current();
      var outputRoute, inputRoute := ChooseRoutes();
      ApplyRoutes(outputRoute, inputRoute);
    }

    method ApplyRoutes(outputRoute: Option<string>, inputRoute: Option<string>)
      requires ar.Valid() && ar.newValue[..] == ar.resetValue[..]
      modifies ar.mixer, ar.oldValue, ar.newValue
      ensures ar.Valid()
      ensures ar.mixer.regs == Overlay(Overlay(ar.resetValue[..], Sets(outputRoute)), Sets(inputRoute))
    {
      if outputRoute.Some? {
        var _ := ar.ApplyPath(outputRoute.value);
      }
      if inputRoute.Some? {
        var _ := ar.ApplyPath(inputRoute.value);
      }
      ar.UpdateMixer();
    }
  }

  /** Control by control: the input's path goes first, then the output's, and what neither names is as it was saved. */
  lemma RoutedAt(adev: AudioDevice, r: Request, ctl: nat)
    requires adev.ar.Valid() && ctl < adev.ar.resetValue.Length
    ensures var inp, out := NamedPath(adev, InputRoute(r)), NamedPath(adev, OutputRoute(r));
      var value := adev.Routed(r)[ctl];
      && (forall i | 0 <= i < |inp| && inp[i].ctl == ctl :: value == inp[i].values)
      && (!Names(inp, ctl) ==> forall i | 0 <= i < |out| && out[i].ctl == ctl :: value == out[i].values)
      && (!Names(inp, ctl) && !Names(out, ctl) ==> value == adev.ar.resetValue[ctl])
  {
    hide InputRoute, OutputRoute, Overlay;
    var inp, out := NamedPath(adev, InputRoute(r)), NamedPath(adev, OutputRoute(r));
    OverlayAt(adev.ar.resetValue[..], out, ctl);
    OverlayAt(Overlay(adev.ar.resetValue[..], out), inp, ctl);
  }

  function NamedPath(adev: AudioDevice, name: Option<string>): seq<Setting>
    reads adev, adev.ar, adev.ar.paths
  {
    if name.Some? && adev.ar.Find(name.value).Some? then adev.ar.Find(name.value).value.settings else []
  }

  /** After any history the mixer holds the saved state under the paths of the current request with the input device
      of the request that was applied last; where nothing hangs on that device, or it is the same, these are the
      current request's own paths. */
  lemma HistoryIndependent(adev: AudioDevice)
    requires adev.Valid() && adev.history != []
    ensures var last, head := adev.history[|adev.history| - 1], Head(adev.history);
            && (!InputOnly(last) || last.source == CAMCORDER || head.input == last.input ==>
                adev.ar.mixer.regs == adev.Routed(last))
            && adev.ar.mixer.regs == adev.Routed(last.(input := head.input))
  {
    var last, head := adev.history[|adev.history| - 1], Head(adev.history);
    HeadHasSameId(adev.history);
    SameIdSamePaths(head, last);
    SameIdSamePaths(head, last.(input := head.input));
  }

  /** And it can disagree: the headset microphone stays in use after it was unplugged. */
  lemma StaleMicrophone()
    ensures var plugged := Request({}, MIC, IN_WIRED_HEADSET);
            var unplugged := Request({}, MIC, OTHER_IN);
            && Head([plugged, unplugged]) == plugged
            && InputRoute(plugged) == Some("media-headset-mic") && InputRoute(unplugged) == Some("media-main-mic")
  {
    var plugged := Request({}, MIC, IN_WIRED_HEADSET);
    var unplugged := Request({}, MIC, OTHER_IN);
    assert [plugged, unplugged][..1] == [plugged];
  }
}
