/** Mixer controls, their shadow copies and the paths that set them (audio/audio_route.c). */
module AudioRoute {
  import opened Options

  type Values = seq<int>

  /** One control of a path and all of its values. */
  datatype Setting = Setting(ctl: nat, values: Values)

  // ----- What a path does -----

  function Overlay(state: seq<Values>, path: seq<Setting>): (r: seq<Values>)
    ensures |r| == |state|
  {
    if path == [] then state
    else
      var before, last := Overlay(state, path[..|path| - 1]), path[|path| - 1];
      if last.ctl < |state| then before[last.ctl := last.values] else before
  }

  ghost predicate Names(path: seq<Setting>, ctl: nat) {
    exists i :: 0 <= i < |path| && path[i].ctl == ctl
  }

  ghost predicate NamesOnce(path: seq<Setting>) {
    forall i, j | 0 <= i < j < |path| :: path[i].ctl != path[j].ctl
  }

  /** A control the path names gets the path's values, any other keeps its own. */
  lemma {:induction false} OverlayAt(state: seq<Values>, path: seq<Setting>, ctl: nat)
    requires NamesOnce(path) && ctl < |state|
    ensures forall i | 0 <= i < |path| && path[i].ctl == ctl :: Overlay(state, path)[ctl] == path[i].values
    ensures !Names(path, ctl) ==> Overlay(state, path)[ctl] == state[ctl]
  {
    if path != [] {
      var front := path[..|path| - 1];
      OverlayAt(state, front, ctl);
      assert forall i | 0 <= i < |front| :: front[i] == path[i];
      assert !Names(path, ctl) ==> !Names(front, ctl);
    }
  }

  /** The order of a path's settings makes no difference. */
  lemma OverlayAnyOrder(state: seq<Values>, path: seq<Setting>, other: seq<Setting>)
    requires NamesOnce(path) && NamesOnce(other) && forall s :: s in path <==> s in other
    ensures Overlay(state, path) == Overlay(state, other)
  {
    var l, r := Overlay(state, path), Overlay(state, other);
    forall ctl | 0 <= ctl < |state| ensures l[ctl] == r[ctl] {
      OverlayAt(state, path, ctl);
      OverlayAt(state, other, ctl);
      if Names(path, ctl) {
        var i :| 0 <= i < |path| && path[i].ctl == ctl;
        assert path[i] in other;
        var j :| 0 <= j < |other| && other[j] == path[i];
      } else {
        forall j | 0 <= j < |other| ensures other[j].ctl != ctl {
          assert other[j] in path;
        }
      }
    }
  }

  /** Applying a path twice is applying it once. */
  lemma OverlayTwice(state: seq<Values>, path: seq<Setting>)
    requires NamesOnce(path)
    ensures Overlay(Overlay(state, path), path) == Overlay(state, path)
  {
    var once := Overlay(state, path);
    forall ctl | 0 <= ctl < |state| ensures Overlay(once, path)[ctl] == once[ctl] {
      OverlayAt(state, path, ctl);
      OverlayAt(once, path, ctl);
      if Names(path, ctl) {
        var i :| 0 <= i < |path| && path[i].ctl == ctl;
      }
    }
  }

  // ----- Building paths -----

  /** Every setting names a control that exists and has a value for each of its places. */
  ghost predicate Fits(path: seq<Setting>, sizes: seq<nat>) {
    forall i | 0 <= i < |path| :: path[i].ctl < |sizes| && |path[i].values| == sizes[path[i].ctl]
  }

  function Position(path: seq<Setting>, ctl: nat): (i: int)
    ensures i == -1 || (0 <= i < |path| && path[i].ctl == ctl)
    ensures i == -1 <==> forall k | 0 <= k < |path| :: path[k].ctl != ctl
    ensures forall k | 0 <= k < i :: path[k].ctl != ctl
  {
    if path == [] then -1
    else if Position(path[..|path| - 1], ctl) != -1 then Position(path[..|path| - 1], ctl)
    else if path[|path| - 1].ctl == ctl then |path| - 1 else -1
  }

  lemma NamesMore(path: seq<Setting>, setting: Setting)
    requires NamesOnce(path) && Position(path, setting.ctl) == -1
    ensures NamesOnce(path + [setting])
  {
  }

  /** What adding a sub-path leaves. */
  function Joined(path: seq<Setting>, sub: seq<Setting>): seq<Setting>
    decreases |sub|
  {
    if sub == [] || Position(path, sub[0].ctl) != -1 then path else Joined(path + [sub[0]], sub[1..])
  }

  /** So many settings of the sub-path are added. */
  function Taken(path: seq<Setting>, sub: seq<Setting>): (n: nat)
    ensures n <= |sub|
    decreases |sub|
  {
    if sub == [] || Position(path, sub[0].ctl) != -1 then 0 else 1 + Taken(path + [sub[0]], sub[1..])
  }

  /** The path gets the settings of the sub-path up to the first that names one of its controls again, and names no
      control twice. */
  lemma {:induction false} JoinedExact(path: seq<Setting>, sub: seq<Setting>)
    requires NamesOnce(path)
    ensures var n := Taken(path, sub);
            && Joined(path, sub) == path + sub[..n] && NamesOnce(path + sub[..n])
            && (n < |sub| ==> Names(path + sub[..n], sub[n].ctl))
    decreases |sub|
  {
    hide Position, NamesOnce, Names;
    if sub == [] {
      assert path + sub[..0] == path;
    } else if Position(path, sub[0].ctl) != -1 {
      assert path + sub[..0] == path;
      Named(path, sub[0].ctl);
    } else {
      NamesMore(path, sub[0]);
      JoinedExact(path + [sub[0]], sub[1..]);
      var n := Taken(path + [sub[0]], sub[1..]);
      assert (path + [sub[0]]) + sub[1..][..n] == path + sub[..n + 1];
    }
  }

  lemma Named(path: seq<Setting>, ctl: nat)
    requires Position(path, ctl) != -1
    ensures Names(path, ctl)
  {
  }

  class MixerPath {
    const name: string
    var settings: seq<Setting>

    constructor (name: string)
      ensures this.name == name && settings == []
    {
      this.name, settings := name, [];
    }

    method FindCtlIndexInPath(ctl: nat) returns (i: int)
      ensures i == Position(settings, ctl)
    {
      for k := 0 to |settings|
        invariant forall j | 0 <= j < k :: settings[j].ctl != ctl
      {
        if settings[k].ctl == ctl {
          return k;
        }
      }
      return -1;
    }

    method AddSetting(setting: Setting) returns (ok: bool)
      requires NamesOnce(settings)
      modifies this
      ensures NamesOnce(settings) && ok == !old(Names(settings, setting.ctl))
      ensures settings == if ok then old(settings) + [setting] else old(settings)
    {
      var at := FindCtlIndexInPath(setting.ctl);
      if at != -1 {
        return false;
      }
      settings := settings + [setting];
      return true;
    }

    /** index -1 sets every value; with any other, a new setting has the given one, the same at place 0, and what
        the fresh memory held elsewhere. */
    method AddValue(ctl: nat, index: int, value: int, sizes: seq<nat>, unset: Values) returns (ok: bool)
      requires NamesOnce(settings) && Fits(settings, sizes)
      requires ctl < |sizes| && |unset| == sizes[ctl] > 0 && index >= -1
      modifies this
      ensures NamesOnce(settings) && Fits(settings, sizes) && ok == (index < sizes[ctl])
      ensures !ok ==> settings == old(settings)
      ensures ok ==>
        var p := old(Position(settings, ctl));
        var at := if p == -1 then |old(settings)| else p;
        var was := if p == -1 then unset[0 := value] else old(settings)[p].values;
        && |settings| == |old(settings)| + (if p == -1 then 1 else 0)
        && (forall i | 0 <= i < |old(settings)| && i != at :: settings[i] == old(settings)[i])
        && settings[at].ctl == ctl && |settings[at].values| == |was|
        && forall j | 0 <= j < |was| :: settings[at].values[j] == if index == -1 || j == index then value else was[j]
    {
      var numValues := sizes[ctl];
      if index >= numValues {
        return false;
      }
      var at := FindCtlIndexInPath(ctl);
      if at < 0 {
        at := |settings|;
        settings := settings + [Setting(ctl, unset[0 := value])];
      }
      if index == -1 {
        settings := settings[at := Setting(ctl, seq(numValues, _ => value))];
      } else {
        settings := settings[at := Setting(ctl, settings[at].values[index := value])];
      }
      return true;
    }

    method AddPath(sub: MixerPath) returns (ok: bool)
      requires NamesOnce(settings) && sub != this
      modifies this
      ensures settings == Joined(old(settings), sub.settings)
      ensures ok <==> |settings| == |old(settings)| + |sub.settings|
    {
      for i := 0 to |sub.settings|
        invariant NamesOnce(settings) && |settings| == |old(settings)| + i
        invariant Joined(old(settings), sub.settings) == Joined(settings, sub.settings[i..])
      {
        ok := AddSetting(sub.settings[i]);
        if !ok {
          return;
        }
      }
      return true;
    }
  }

  // ----- The mixer and its shadow -----

  /** The control registers, and which of them were written, in order. */
  class Mixer {
    var regs: seq<Values>
    var writes: seq<nat>

    method SetArray(ctl: nat, values: Values)
      requires ctl < |regs|
      modifies this
      ensures regs == old(regs)[ctl := values] && writes == old(writes) + [ctl]
    {
      regs, writes := regs[ctl := values], writes + [ctl];
    }
  }

  function Changed(before: seq<Values>, after: seq<Values>, n: nat): seq<nat>
    requires n <= |before| && n <= |after|
  {
    if n == 0 then []
    else Changed(before, after, n - 1) + if before[n - 1] != after[n - 1] then [n - 1] else []
  }

  /** The controls whose values differ, lowest first. */
  lemma {:induction false} ChangedExact(before: seq<Values>, after: seq<Values>, n: nat)
    requires n <= |before| && n <= |after|
    ensures forall c :: c in Changed(before, after, n) <==> 0 <= c < n && before[c] != after[c]
    ensures forall i, j | 0 <= i < j < |Changed(before, after, n)| ::
              Changed(before, after, n)[i] < Changed(before, after, n)[j]
  {
    if n > 0 {
      ChangedExact(before, after, n - 1);
      var r := Changed(before, after, n - 1);
      forall i | 0 <= i < |r| ensures r[i] < n - 1 {
        assert r[i] in r;
      }
      var all := Changed(before, after, n);
      assert all == if before[n - 1] != after[n - 1] then r + [n - 1] else r;
    }
  }

  lemma {:induction false} ChangedStep(before: seq<Values>, after: seq<Values>, n: nat, writes: seq<nat>)
    requires n < |before| == |after|
    ensures writes + Changed(before, after, n + 1)
         == writes + Changed(before, after, n) + if before[n] != after[n] then [n] else []
  {
  }

  /** The new values up to a control, the old ones from there on. */
  function Mixed(before: seq<Values>, after: seq<Values>, n: nat): seq<Values>
    requires n <= |before| && n <= |after|
  {
    after[..n] + before[n..]
  }

  lemma MixedStep(before: seq<Values>, after: seq<Values>, n: nat)
    requires n < |before| == |after|
    ensures |Mixed(before, after, n)| == |after| && Mixed(before, after, n)[n] == before[n]
    ensures Mixed(before, after, n + 1) == Mixed(before, after, n)[n := after[n]]
  {
  }

  lemma MixedEnds(before: seq<Values>, after: seq<Values>)
    requires |before| == |after|
    ensures Mixed(before, after, 0) == before && Mixed(before, after, |after|) == after
    ensures Changed(before, after, 0) == []
  {
  }

  class AudioRoute {
    const mixer: Mixer
    const oldValue: array<Values>
    const newValue: array<Values>
    const resetValue: array<Values>
    var paths: seq<MixerPath>

    /** The shadow is true, and every path is well formed. */
    ghost predicate Valid()
      reads this, mixer, oldValue, newValue, resetValue, paths
    {
      && oldValue != newValue && oldValue != resetValue && newValue != resetValue
      && oldValue.Length == newValue.Length == resetValue.Length
      && oldValue[..] == mixer.regs
      && forall p | p in paths :: NamesOnce(p.settings) && forall s | s in p.settings :: s.ctl < oldValue.Length
    }

    /** What alloc_mixer_state reads, and after it the initial values that the configuration asks for. */
    constructor (mixer: Mixer, initial: seq<Values>, paths: seq<MixerPath>)
      requires |initial| == |mixer.regs|
      requires forall p | p in paths :: NamesOnce(p.settings) && forall s | s in p.settings :: s.ctl < |initial|
      modifies mixer
      ensures Valid() && this.mixer == mixer && this.paths == paths
      ensures fresh(oldValue) && fresh(newValue) && fresh(resetValue)
      ensures mixer.regs == resetValue[..] == initial
    {
      this.mixer, this.paths := mixer, paths;
      var n := |mixer.regs|;
      oldValue := new Values[n](i requires 0 <= i < n reads mixer => if i < |mixer.regs| then mixer.regs[i] else []);
      newValue := new Values[n](i requires 0 <= i < n => initial[i]);
      resetValue := new Values[n];
      new;
      UpdateMixer();
      SaveMixerState();
    }

    /** Only what changed is written, and then the mixer holds the new values. */
    method UpdateMixer()
      requires Valid()
      modifies mixer, oldValue
      ensures Valid() && mixer.regs == newValue[..]
      ensures mixer.writes == old(mixer.writes) + Changed(old(mixer.regs), newValue[..], newValue.Length)
    {
      hide Changed;
      UpdateControls();
    }

    /** The loop of update_mixer_state. */
    method UpdateControls()
      requires oldValue != newValue && oldValue.Length == newValue.Length && oldValue[..] == mixer.regs
      modifies mixer, oldValue
      ensures oldValue[..] == mixer.regs == newValue[..]
      ensures mixer.writes == old(mixer.writes) + Changed(old(mixer.regs), newValue[..], newValue.Length)
    {
      hide Changed, Mixed;
      ghost var before, after := mixer.regs, newValue[..];
      MixedEnds(before, after);
      for i := 0 to oldValue.Length
        invariant oldValue[..] == mixer.regs == Mixed(before, after, i) && newValue[..] == after
        invariant mixer.writes == old(mixer.writes) + Changed(before, after, i)
      {
        MixedStep(before, after, i);
        UpdateControl(i);
        ChangedStep(before, after, i, old(mixer.writes));
      }
    }

    method UpdateControl(i: nat)
      requires oldValue != newValue && i < oldValue.Length == newValue.Length && oldValue[..] == mixer.regs
      modifies mixer, oldValue
      ensures oldValue[..] == mixer.regs == old(mixer.regs)[i := newValue[i]]
      ensures mixer.writes == old(mixer.writes) + if old(mixer.regs)[i] != newValue[i] then [i] else []
    {
      if oldValue[i] != newValue[i] {
        mixer.SetArray(i, newValue[i]);
        oldValue[i] := newValue[i];
      }
    }

    method SaveMixerState()
      requires Valid()
      modifies resetValue
      ensures Valid() && resetValue[..] == newValue[..]
    {
      for i := 0 to resetValue.Length
        invariant resetValue[..i] == newValue[..i]
      {
        resetValue[i] := newValue[i];
      }
    }

    method Reset()
      requires Valid()
      modifies newValue
      ensures Valid() && newValue[..] == resetValue[..]
    {
      for i := 0 to newValue.Length
        invariant newValue[..i] == resetValue[..i]
      {
        newValue[i] := resetValue[i];
      }
    }

    function Find(name: string): (p: Option<MixerPath>)
      reads this
      ensures p.Some? ==> p.value in paths && p.value.name == name
      ensures p.None? ==> forall q | q in paths :: q.name != name
    {
      FindIn(paths, name)
    }

    method PathGetByName(name: string) returns (p: Option<MixerPath>)
      ensures p == Find(name)
    {
      for i := 0 to |paths|
        invariant FindIn(paths, name) == FindIn(paths[i..], name)
      {
        if paths[i].name == name {
          return Some(paths[i]);
        }
      }
      return None;
    }

    method PathApply(path: MixerPath)
      requires Valid() && path in paths
      modifies newValue
      ensures Valid() && newValue[..] == Overlay(old(newValue[..]), path.settings)
    {
      for i := 0 to |path.settings|
        invariant newValue[..] == Overlay(old(newValue[..]), path.settings[..i])
      {
        newValue[path.settings[i].ctl] := path.settings[i].values;
        assert path.settings[..i + 1][..i] == path.settings[..i];
      }
      assert path.settings[..|path.settings|] == path.settings;
    }

    method PathReset(path: MixerPath)
      requires Valid() && path in paths
      modifies newValue
      ensures Valid() && newValue[..] == Undone(old(newValue[..]), resetValue[..], path.settings)
    {
      for i := 0 to |path.settings|
        invariant newValue[..] == Undone(old(newValue[..]), resetValue[..], path.settings[..i])
      {
        assert path.settings[..i + 1][..i] == path.settings[..i];
        newValue[path.settings[i].ctl] := resetValue[path.settings[i].ctl];
      }
      assert path.settings[..|path.settings|] == path.settings;
    }

    /** What a named path sets; nothing if there is none of that name. */
    function Sets(name: string): seq<Setting>
      reads this, paths
    {
      match Find(name)
      case Some(p) => p.settings
      case None => []
    }

    method ApplyPath(name: string) returns (ret: int)
      requires Valid()
      modifies newValue
      ensures Valid() && newValue[..] == Overlay(old(newValue[..]), Sets(name))
      ensures Find(name).None? ==> newValue[..] == old(newValue[..])
      ensures Find(name).Some? ==> newValue[..] == Overlay(old(newValue[..]), Find(name).value.settings)
      ensures ret == if Find(name).Some? then 0 else -1
    {
      var path := PathGetByName(name);
      if path.None? {
        return -1;
      }
      PathApply(path.value);
      return 0;
    }
  }

  /** Resetting a path puts back the controls it names and no others. */
  function Undone(state: seq<Values>, reset: seq<Values>, path: seq<Setting>): (r: seq<Values>)
    requires |reset| == |state| && forall s | s in path :: s.ctl < |state|
    ensures |r| == |state|
    ensures forall c | 0 <= c < |state| :: r[c] == if Names(path, c) then reset[c] else state[c]
  {
    if path == [] then state
    else
      var front, last := path[..|path| - 1], path[|path| - 1];
      var before := Undone(state, reset, front);
      assert forall i | 0 <= i < |front| :: front[i] == path[i];
      assert forall c :: Names(path, c) <==> Names(front, c) || c == last.ctl;
      before[last.ctl := reset[last.ctl]]
  }

  /** Whatever else has been applied since, resetting a path takes exactly its own effect back. */
  lemma ResetUndoesApply(state: seq<Values>, path: seq<Setting>, other: seq<Setting>)
    requires NamesOnce(path) && NamesOnce(other) && forall s | s in path + other :: s.ctl < |state|
    requires forall c | 0 <= c < |state| :: !(Names(path, c) && Names(other, c))
    ensures Undone(Overlay(Overlay(state, path), other), state, path) == Overlay(state, other)
  {
    var l, r := Undone(Overlay(Overlay(state, path), other), state, path), Overlay(state, other);
    forall c | 0 <= c < |state| ensures l[c] == r[c] {
      OverlayAt(state, path, c);
      OverlayAt(Overlay(state, path), other, c);
      OverlayAt(state, other, c);
      if Names(other, c) {
        var i :| 0 <= i < |other| && other[i].ctl == c;
      }
    }
  }

  function FindIn(paths: seq<MixerPath>, name: string): (p: Option<MixerPath>)
    ensures p.Some? ==> p.value in paths && p.value.name == name
    ensures p.None? ==> forall q | q in paths :: q.name != name
  {
    if paths == [] then None else if paths[0].name == name then Some(paths[0]) else FindIn(paths[1..], name)
  }

  /** The first path of a name is the one that is found. */
  lemma {:induction false} FindFirst(paths: seq<MixerPath>, name: string, i: nat)
    requires i < |paths| && paths[i].name == name && forall j | 0 <= j < i :: paths[j].name != name
    ensures FindIn(paths, name) == Some(paths[i])
  {
    if i > 0 {
      FindFirst(paths[1..], name, i - 1);
    }
  }
}
