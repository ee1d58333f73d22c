/** The fixed-point volume ramp at the start of a capture (pcm_input_start and in_apply_ramp in audio/audio_hw.c). */
module CaptureRamp {
  import opened Arithmetic

  type Sample = x: int | -32768 <= x < 32768

  const CAPTURE_START_RAMP_MS := 100
  const USHRT_MAX := 65535

  /** (sample * vol) >> 16, the shift of a negative product rounding down. */
  function Scaled(sample: Sample, vol: nat): (r: Sample)
    requires vol <= USHRT_MAX
    ensures sample >= 0 ==> 0 <= r <= sample
    ensures sample < 0 ==> sample <= r <= 0
  {
    ScaledBounds(sample, vol);
    sample * vol / 65536
  }

  lemma ScaledBounds(sample: int, vol: nat)
    requires vol <= USHRT_MAX
    ensures sample >= 0 ==> 0 <= sample * vol / 65536 <= sample
    ensures sample < 0 ==> sample <= sample * vol / 65536 <= 0
  {
    var p := sample * vol;
    if sample >= 0 {
      Times(vol, 65536, sample);
    } else {
      Times(vol, 65536, -sample);
      assert p == -((-sample) * vol);
    }
  }

  /** A louder volume never makes a sample smaller. */
  lemma ScaledGrows(sample: Sample, vol: nat, louder: nat)
    requires vol <= louder <= USHRT_MAX
    ensures sample >= 0 ==> Scaled(sample, vol) <= Scaled(sample, louder)
    ensures sample < 0 ==> Scaled(sample, vol) >= Scaled(sample, louder)
  {
    if sample >= 0 {
      Times(vol, louder, sample);
      Quotients(sample * vol, sample * louder, 65536);
    } else {
      var s: int := sample;
      Times(vol, louder, -s);
      assert s * vol == -((-s) * vol) && s * louder == -((-s) * louder);
      Quotients(s * louder, s * vol, 65536);
    }
  }

  /** The ramp as it was set up: the volume after k frames is k steps, up to the number of frames it lasts. */
  datatype Plan = Plan(mono: bool, step: nat, total: nat) {
    function Volume(k: nat): nat {
      step * k
    }

    ghost predicate Fits() {
      forall k: nat | k <= total :: Volume(k) <= USHRT_MAX
    }

    function Frame(sample: int): int {
      if mono then sample else sample / 2
    }

    function Span(frames: int): int {
      if mono then frames else 2 * frames
    }

    /** A sample of the frame that comes after k others. */
    function Faded(sample: Sample, k: nat): Sample
      requires Fits()
    {
      if k < total then Scaled(sample, Volume(k)) else sample
    }

    /** A piece of the capture that starts after so many frames. */
    function Output(samples: seq<Sample>, start: nat): (r: seq<Sample>)
      requires Fits()
      ensures |r| == |samples|
    {
      seq(|samples|, i requires 0 <= i < |samples| => Faded(samples[i], start + Frame(i)))
    }
  }

  /** The ramp of a stream that starts at such a rate. */
  function Started(mono: bool, requestRate: nat): Plan
    requires requestRate >= 10
  {
    Plan(mono, USHRT_MAX / (requestRate / 10), requestRate / 10)
  }

  /** The ramp fields of a capture stream. */
  class Ramp {
    const mono: bool
    var rampVol: nat
    var rampStep: nat
    var rampFrames: nat
    ghost var plan: Plan

    /** How many frames were read since the start, as far as the ramp goes. */
    ghost function Done(): nat
      reads this
    {
      if rampFrames <= plan.total then plan.total - rampFrames else 0
    }

    ghost predicate Valid()
      reads this
    {
      && plan.Fits() && plan.mono == mono && plan.step == rampStep
      && rampFrames <= plan.total && rampVol == plan.Volume(Done())
    }

    constructor (mono: bool)
      ensures Valid() && this.mono == mono && Done() == plan.total == 0
    {
      this.mono, rampVol, rampStep, rampFrames, plan := mono, 0, 0, 0, Plan(mono, 0, 0);
    }

    /** The end of pcm_input_start. The rate is at least 10, or the division would be by zero. */
    method Start(requestRate: nat)
      requires requestRate >= 10
      modifies this
      ensures Valid() && plan == Started(mono, requestRate) && Done() == 0
    {
      rampFrames := CAPTURE_START_RAMP_MS * requestRate / 1000;
      rampStep := (USHRT_MAX / rampFrames) % 65536;
      rampVol := 0;
      plan := Started(mono, requestRate);
      StepsFit(plan);
    }

    lemma PlanFits()
      requires Valid()
      ensures plan.Fits()
    {
    }

    method Apply(buffer: array<Sample>, count: nat)
      requires Valid() && plan.Span(count) <= buffer.Length
      modifies this`rampVol, this`rampFrames, buffer
      ensures Valid() && plan == old(plan)
      ensures Done() == if old(Done()) + count < plan.total then old(Done()) + count else plan.total
      ensures rampVol <= USHRT_MAX
      ensures buffer[..plan.Span(count)] == plan.Output(old(buffer[..plan.Span(count)]), old(Done()))
      ensures buffer[plan.Span(count)..] == old(buffer[plan.Span(count)..])
    {
      hide Scaled, Plan.Volume;
      var frames := if count < rampFrames then count else rampFrames;
      ghost var start, before := Done(), buffer[..];
      var vol;
      if mono {
        vol := FadeMono(buffer, frames, plan);
      } else {
        vol := FadeStereo(buffer, frames, plan);
      }
      rampVol := vol;
      rampFrames := rampFrames - frames;
      FadedAll(plan, before, buffer[..], start, count);
    }

    /** The samples of the first frames, one by one. */
    lemma FadedAll(p: Plan, before: seq<Sample>, after: seq<Sample>, start: nat, count: nat)
      requires p.Fits() && |before| == |after| && p.Span(count) <= |before|
      requires forall i | 0 <= i < p.Span(count) :: after[i] == p.Faded(before[i], start + p.Frame(i))
      ensures after[..p.Span(count)] == p.Output(before[..p.Span(count)], start)
    {
      hide Plan.Faded;
    }

    method FadeMono(buffer: array<Sample>, frames: nat, ghost p: Plan) returns (vol: nat)
      requires Valid() && p == plan && mono && frames <= rampFrames && frames <= buffer.Length
      modifies buffer
      ensures vol == plan.Volume(Done() + frames)
      ensures forall j | 0 <= j < frames :: buffer[j] == p.Faded(old(buffer[j]), Done() + j)
      ensures forall j | frames <= j < buffer.Length :: buffer[j] == old(buffer[j])
    {
      hide Scaled, Plan.Volume;
      vol := rampVol;
      for i := 0 to frames
        invariant vol == p.Volume(Done() + i)
        invariant forall j | 0 <= j < i :: buffer[j] == p.Faded(old(buffer[j]), Done() + j)
        invariant forall j | i <= j < buffer.Length :: buffer[j] == old(buffer[j])
      {
        buffer[i] := Scaled(buffer[i], vol);
        NextStep(p, Done() + i);
        vol := (vol + rampStep) % 65536;
      }
    }

    method FadeStereo(buffer: array<Sample>, frames: nat, ghost p: Plan) returns (vol: nat)
      requires Valid() && p == plan && !mono && frames <= rampFrames && 2 * frames <= buffer.Length
      modifies buffer
      ensures vol == plan.Volume(Done() + frames)
      ensures forall j | 0 <= j < 2 * frames :: buffer[j] == p.Faded(old(buffer[j]), Done() + j / 2)
      ensures forall j | 2 * frames <= j < buffer.Length :: buffer[j] == old(buffer[j])
    {
      hide Scaled, Plan.Volume;
      vol := rampVol;
      for i := 0 to frames
        invariant vol == p.Volume(Done() + i)
        invariant forall j | 0 <= j < 2 * i :: buffer[j] == p.Faded(old(buffer[j]), Done() + j / 2)
        invariant forall j | 2 * i <= j < buffer.Length :: buffer[j] == old(buffer[j])
      {
        buffer[2 * i] := Scaled(buffer[2 * i], vol);
        buffer[2 * i + 1] := Scaled(buffer[2 * i + 1], vol);
        NextStep(p, Done() + i);
        vol := (vol + rampStep) % 65536;
      }
    }
  }

  /** The volume never wraps. */
  lemma NextStep(plan: Plan, k: nat)
    requires plan.Fits() && k < plan.total
    ensures plan.Volume(k + 1) == plan.Volume(k) + plan.step <= USHRT_MAX
  {
    assert plan.Volume(k + 1) <= USHRT_MAX;
  }

  lemma StepsFit(plan: Plan)
    requires plan.total > 0 && plan.step == USHRT_MAX / plan.total
    ensures plan.Fits()
  {
    QuotientTimes(USHRT_MAX, plan.total);
    forall k: nat | k <= plan.total ensures plan.Volume(k) <= USHRT_MAX {
      Times(k, plan.total, plan.step);
    }
  }

  /** The ramp lasts a tenth of a second, and its step is the largest that keeps the volume in 16 bits so long. */
  lemma StartedExact(mono: bool, requestRate: nat)
    requires requestRate >= 10
    ensures var p := Started(mono, requestRate);
      && p.mono == mono && 10 * p.total <= requestRate < 10 * (p.total + 1)
      && p.step * p.total <= USHRT_MAX < (p.step + 1) * p.total
  {
    var total := requestRate / 10;
    Remains(USHRT_MAX, total);
  }

  lemma Remains(n: nat, k: nat)
    requires k > 0
    ensures n / k * k <= n < (n / k + 1) * k
  {
    assert n == n / k * k + n % k;
    assert (n / k + 1) * k == n / k * k + k;
  }

  /** What becomes of each sample: in frame k of the ramp it is k steps of its 65536 parts, rounded down, and after the
      ramp it is kept; a frame is one sample, or two. */
  lemma OutputAt(plan: Plan, samples: seq<Sample>, start: nat, i: nat)
    requires plan.Fits() && i < |samples|
    ensures var o, k := plan.Output(samples, start)[i], start + if plan.mono then i else i / 2;
      if k >= plan.total then o == samples[i]
      else o * 65536 <= samples[i] * (plan.step * k) < (o + 1) * 65536
  {
  }

  /** However reads are cut into pieces, the samples are the same. */
  lemma OutputInPieces(plan: Plan, x: seq<Sample>, y: seq<Sample>, start: nat, frames: nat)
    requires plan.Fits() && |x| == plan.Span(frames)
    ensures plan.Output(x + y, start) == plan.Output(x, start) + plan.Output(y, start + frames)
  {
  }

  /** Past the end of the ramp nothing is changed, so a start that was cut off there makes no difference. */
  lemma OutputAfterRamp(plan: Plan, samples: seq<Sample>, start: nat)
    requires plan.Fits() && start >= plan.total
    ensures plan.Output(samples, start) == samples
  {
  }

  /** A piece comes out as it was, whatever it holds, exactly if the ramp is over or there is nothing in it. */
  lemma OutputKept(plan: Plan, frames: nat, start: nat)
    requires plan.Fits()
    ensures (forall samples: seq<Sample> | |samples| == plan.Span(frames) :: plan.Output(samples, start) == samples)
            <==> frames == 0 || start >= plan.total
  {
    if frames > 0 && start < plan.total {
      var loud: seq<Sample> := seq(plan.Span(frames), _ => 32767);
      assert plan.Volume(start) <= USHRT_MAX;
      assert plan.Output(loud, start)[0] == Scaled(32767, plan.Volume(start)) < loud[0];
    }
  }

  /** And it comes out silent, whatever it holds, exactly if all of it is before the first step. */
  lemma OutputSilent(plan: Plan, frames: nat, start: nat)
    requires plan.Fits()
    ensures (forall samples: seq<Sample> | |samples| == plan.Span(frames) :: Silent(plan.Output(samples, start)))
            <==> frames == 0 || (start + frames <= plan.total && plan.Volume(start + frames - 1) == 0)
  {
    hide Scaled;
    if frames == 0 {
    } else if start + frames <= plan.total && plan.Volume(start + frames - 1) == 0 {
      forall samples: seq<Sample> | |samples| == plan.Span(frames) ensures Silent(plan.Output(samples, start)) {
        AllSilent(plan, samples, frames, start);
      }
    } else {
      var low: seq<Sample> := seq(plan.Span(frames), _ => -1);
      LastHeard(plan, low, frames, start);
    }
  }

  lemma AllSilent(plan: Plan, samples: seq<Sample>, frames: nat, start: nat)
    requires plan.Fits() && |samples| == plan.Span(frames) && frames > 0
    requires start + frames <= plan.total && plan.Volume(start + frames - 1) == 0
    ensures Silent(plan.Output(samples, start))
  {
    hide Scaled, Plan.Volume;
    forall i | 0 <= i < |samples| ensures plan.Output(samples, start)[i] == 0 {
      StillNothing(plan, start + plan.Frame(i), start + frames - 1);
      ScaledByNothing(samples[i]);
    }
  }

  lemma StillNothing(plan: Plan, k: nat, last: nat)
    requires k <= last && plan.Volume(last) == 0
    ensures plan.Volume(k) == 0
  {
    Times(k, last, plan.step);
  }

  lemma ScaledByNothing(sample: Sample)
    ensures Scaled(sample, 0) == 0
  {
  }

  /** The smallest sound comes through any volume. */
  lemma ScaledLow(vol: nat)
    requires 0 < vol <= USHRT_MAX
    ensures Scaled(-1, vol) == -1
  {
  }

  lemma LastHeard(plan: Plan, low: seq<Sample>, frames: nat, start: nat)
    requires plan.Fits() && |low| == plan.Span(frames) && frames > 0 && forall i | 0 <= i < |low| :: low[i] == -1
    requires start + frames > plan.total || plan.Volume(start + frames - 1) > 0
    ensures !Silent(plan.Output(low, start))
  {
    hide Scaled, Plan.Volume;
    var last, k := plan.Span(frames) - 1, start + frames - 1;
    assert plan.Frame(last) == frames - 1;
    if k < plan.total {
      assert plan.Volume(k) <= USHRT_MAX;
      ScaledLow(plan.Volume(k));
    }
    assert plan.Output(low, start)[last] == -1;
  }

  predicate Silent(samples: seq<Sample>) {
    forall i | 0 <= i < |samples| :: samples[i] == 0
  }
}
