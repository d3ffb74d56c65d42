/** The volume state of src/volume_control.c and the mixer mapping of src/audio_output.c, over
    exact real numbers. This idealises C `float`: there is no rounding and no NaN. */
module VolumeModel {
  import opened Bits

  const VOLUME_STEP: real := 1.0 / 20.0
  const MIN_VOLUME: real := 0.0
  const MAX_VOLUME: real := 1.0

  /** `current_volume` and `is_muted`. */
  datatype Volume = Volume(level: real, muted: bool)

  const INITIAL := Volume(0.5, false)

  datatype Command = Set(volume: real) | Mute(on: bool) | Up | Down

  predicate InRange(v: real) {
    MIN_VOLUME <= v <= MAX_VOLUME
  }

  function Min(x: real, y: real): real {
    if x < y then x else y
  }

  function Max(x: real, y: real): real {
    if x > y then x else y
  }

  /** What is sent to the audio output. */
  function Audible(s: Volume): real {
    if s.muted then 0.0 else s.level
  }

  /** The state after a command. Setting a volume out of range is refused. */
  function Apply(s: Volume, c: Command): Volume {
    match c
    case Set(v) => if InRange(v) then s.(level := v) else s
    case Mute(on) => s.(muted := on)
    case Up => s.(level := Min(s.level + VOLUME_STEP, MAX_VOLUME))
    case Down => s.(level := Max(s.level - VOLUME_STEP, MIN_VOLUME))
  }

  predicate Refused(c: Command) {
    c.Set? && !InRange(c.volume)
  }

  /** Every value pushed to the audio output by a run, in order. */
  function Pushes(s: Volume, run: seq<Command>): seq<real>
    decreases |run|
  {
    if run == [] then []
    else
      var s' := Apply(s, run[0]);
      (if Refused(run[0]) then [] else [Audible(s')]) + Pushes(s', run[1..])
  }

  function Run(s: Volume, run: seq<Command>): Volume
    decreases |run|
  {
    if run == [] then s else Run(Apply(s, run[0]), run[1..])
  }

  /** Over every run the volume stays in range, every value pushed is one the audio output
      accepts, and the last one is what the final state says should be heard. */
  lemma {:induction false} RunStaysInRange(s: Volume, run: seq<Command>)
    requires InRange(s.level)
    ensures InRange(Run(s, run).level)
    ensures forall i :: 0 <= i < |Pushes(s, run)| ==> InRange(Pushes(s, run)[i])
    ensures Pushes(s, run) != [] ==> Pushes(s, run)[|Pushes(s, run)| - 1] == Audible(Run(s, run))
    ensures Pushes(s, run) == [] ==> Run(s, run) == s
    decreases |run|
  {
    if run != [] {
      RunStaysInRange(Apply(s, run[0]), run[1..]);
    }
  }

  // ---------------------------------------------------------------- a run, read from its end

  /** The last set that is accepted, or -1. */
  function LastSet(run: seq<Command>): (n: int)
    ensures -1 <= n < |run| && (n >= 0 ==> run[n].Set?)
  {
    if run == [] then -1
    else
      var last := run[|run| - 1];
      if last.Set? && 0.0 <= last.volume <= 1.0 then |run| - 1 else LastSet(run[..|run| - 1])
  }

  /** The argument of the last mute, or how it was before. */
  function LastMute(before: bool, run: seq<Command>): bool {
    if run == [] then before
    else if run[|run| - 1].Mute? then run[|run| - 1].on
    else LastMute(before, run[..|run| - 1])
  }

  function Clamp(x: real): real {
    if x < 0.0 then 0.0 else if x > 1.0 then 1.0 else x
  }

  /** A walk in steps of one twentieth that stops at either end; other commands do not move it. */
  function Walk(v: real, run: seq<Command>): real {
    if run == [] then v
    else
      var w := Walk(v, run[..|run| - 1]);
      match run[|run| - 1]
      case Up => Clamp(w + 1.0 / 20.0)
      case Down => Clamp(w - 1.0 / 20.0)
      case _ => w
  }

  /** Where a run that starts from `before` leaves the level. */
  function LevelAfter(before: real, run: seq<Command>): real {
    var n := LastSet(run);
    Walk(if n < 0 then before else run[n].volume, run[n + 1..])
  }

  lemma LevelAfterAppend(before: real, front: seq<Command>, c: Command)
    ensures var w := LevelAfter(before, front);
            LevelAfter(before, front + [c]) == match c {
              case Set(v) => if 0.0 <= v <= 1.0 then v else w
              case Mute(_) => w
              case Up => Clamp(w + 1.0 / 20.0)
              case Down => Clamp(w - 1.0 / 20.0)
            }
  {
    var run := front + [c];
    var n := LastSet(front);
    LastSetAppend(front, c);
    hide Clamp, LastSet;
    if c.Set? && 0.0 <= c.volume <= 1.0 {
      assert run[|run|..] == [];
    } else {
      hide Walk;
      var start := if n < 0 then before else front[n].volume;
      WalkAppend(start, front[n + 1..], c);
      TailAppend(front, c, n + 1);
      assert LevelAfter(before, front) == Walk(start, front[n + 1..]);
      assert LevelAfter(before, run) == Walk(start, run[n + 1..]);
    }
  }

  lemma TailAppend<T>(front: seq<T>, c: T, k: nat)
    requires k <= |front|
    ensures (front + [c])[k..] == front[k..] + [c]
  {
  }

  lemma LastSetAppend(front: seq<Command>, c: Command)
    ensures LastSet(front + [c]) == if c.Set? && 0.0 <= c.volume <= 1.0 then |front| else LastSet(front)
  {
    assert (front + [c])[..|front|] == front;
  }

  lemma WalkAppend(v: real, run: seq<Command>, c: Command)
    ensures var w := Walk(v, run);
            Walk(v, run + [c]) == match c {
              case Up => Clamp(w + 1.0 / 20.0)
              case Down => Clamp(w - 1.0 / 20.0)
              case _ => w
            }
  {
    hide Clamp;
    assert (run + [c])[..|run|] == run;
  }

  lemma {:induction false} RunAppend(s: Volume, run: seq<Command>, c: Command)
    ensures Run(s, run + [c]) == Apply(Run(s, run), c)
    ensures Pushes(s, run + [c]) == Pushes(s, run) + if Refused(c) then [] else [Audible(Apply(Run(s, run), c))]
    decreases |run|
  {
    hide Apply, Refused, Audible;
    if run == [] {
      assert [c][1..] == [];
    } else {
      RunAppend(Apply(s, run[0]), run[1..], c);
      assert (run + [c])[1..] == run[1..] + [c];
    }
  }

  /** The level is the last accepted set followed by the clamped steps after it, and the mute flag is
      the last mute. */
  lemma {:induction false} LevelIsLastSetAndSteps(s: Volume, run: seq<Command>)
    requires InRange(s.level)
    ensures Run(s, run).level == LevelAfter(s.level, run)
    ensures Run(s, run).muted == LastMute(s.muted, run)
    decreases |run|
  {
    if run == [] {
      assert run[0..] == [];
    } else {
      hide Run, Pushes, LevelAfter;
      var front, c := run[..|run| - 1], run[|run| - 1];
      assert run == front + [c];
      LevelIsLastSetAndSteps(s, front);
      RunStaysInRange(s, front);
      RunAppend(s, front, c);
      LevelAfterAppend(s.level, front, c);
    }
  }

  /** Each command but a refused set pushes once: 0 while muted, the level otherwise. */
  lemma PushIsLevelOrSilence(s: Volume, run: seq<Command>, c: Command)
    requires InRange(s.level)
    ensures var after := Run(s, run + [c]);
            Pushes(s, run + [c]) == Pushes(s, run)
              + if c.Set? && !(0.0 <= c.volume <= 1.0) then []
                else if LastMute(s.muted, run + [c]) then [0.0]
                else [after.level]
  {
    RunAppend(s, run, c);
    LevelIsLastSetAndSteps(s, run + [c]);
  }

  /** `n` steps up add n/20 and stop at the top; `n` steps down mirror that. */
  lemma {:induction false} StepsUp(s: Volume, n: nat)
    requires InRange(s.level)
    ensures Run(s, Repeat(Up, n)) == s.(level := Min(MAX_VOLUME, s.level + n as real / 20.0))
    decreases n
  {
    if n > 0 {
      StepsUp(Apply(s, Up), n - 1);
      assert Repeat(Up, n)[1..] == Repeat(Up, n - 1);
      assert n as real / 20.0 == VOLUME_STEP + (n - 1) as real / 20.0;
    }
  }

  lemma {:induction false} StepsDown(s: Volume, n: nat)
    requires InRange(s.level)
    ensures Run(s, Repeat(Down, n)) == s.(level := Max(MIN_VOLUME, s.level - n as real / 20.0))
    decreases n
  {
    if n > 0 {
      StepsDown(Apply(s, Down), n - 1);
      assert Repeat(Down, n)[1..] == Repeat(Down, n - 1);
      assert n as real / 20.0 == VOLUME_STEP + (n - 1) as real / 20.0;
    }
  }

  /** A step up is undone by a step down exactly when it was not cut short. */
  lemma StepDownUndoesStepUp(s: Volume)
    requires InRange(s.level)
    ensures Run(s, [Up, Down]) == s <==> s.level <= MAX_VOLUME - VOLUME_STEP
  {
  }

  /** While muted, commands change the volume exactly as they would unmuted, and nothing is heard;
      unmuting afterwards gives the state the same commands reach without muting. */
  lemma {:induction false} MutedRunIsSilent(s: Volume, run: seq<Command>)
    requires forall i :: 0 <= i < |run| ==> !run[i].Mute?
    ensures Run(s.(muted := true), run) == Run(s.(muted := false), run).(muted := true)
    ensures Apply(Run(Apply(s, Mute(true)), run), Mute(false)) == Run(s.(muted := false), run)
    ensures forall i :: 0 <= i < |Pushes(s.(muted := true), run)| ==> Pushes(s.(muted := true), run)[i] == 0.0
    decreases |run|
  {
    RunKeepsMute(s.(muted := false), run);
    if run != [] {
      MutedRunIsSilent(Apply(s, run[0]), run[1..]);
    }
  }

  lemma {:induction false} RunKeepsMute(s: Volume, run: seq<Command>)
    requires forall i :: 0 <= i < |run| ==> !run[i].Mute?
    ensures Run(s, run).muted == s.muted
    decreases |run|
  {
    if run != [] {
      RunKeepsMute(Apply(s, run[0]), run[1..]);
    }
  }

  // ---------------------------------------------------------------- the mixer

  /** C's conversion of a floating value to an integer: truncation towards zero. */
  function Truncate(x: real): int {
    if x >= 0.0 then x.Floor else -((-x).Floor)
  }

  /** The mixer level for a volume, and the volume read back from a level. */
  function ToMixer(min: int, max: int, v: real): int {
    min + Truncate((max - min) as real * v)
  }

  function FromMixer(min: int, max: int, level: int): real
    requires min < max
  {
    (level - min) as real / (max - min) as real
  }

  lemma ScaleMonotone(range: real, v: real, w: real)
    requires range > 0.0 && v <= w
    ensures range * v <= range * w
  {
    assert range * (w - v) >= 0.0;
  }

  lemma ScaleStrict(range: real, v: real, w: real)
    requires range > 0.0 && v < w
    ensures range * v < range * w
  {
    assert range * (w - v) > 0.0;
  }

  /** Dividing by a positive range and comparing, with the products named. */
  lemma Quotient(range: real, part: real, v: real)
    requires range > 0.0
    ensures range * (part / range) == part
    ensures part / range <= v <==> part <= range * v
    ensures part / range == v <==> part == range * v
    ensures part / range >= v <==> part >= range * v
    ensures range * v - part < 1.0 ==> v - part / range < 1.0 / range
  {
    var q, unit := part / range, 1.0 / range;
    assert range * q == part && range * unit == 1.0;
    assert range * (q + unit) == part + 1.0;
    if q < v {
      ScaleStrict(range, q, v);
    } else if v < q {
      ScaleStrict(range, v, q);
    }
    if q + unit <= v {
      ScaleMonotone(range, q + unit, v);
    }
  }

  lemma ScaleBounds(range: real, v: real)
    requires range > 0.0 && 0.0 <= v <= 1.0
    ensures 0.0 <= range * v <= range
  {
    ScaleMonotone(range, 0.0, v);
    ScaleMonotone(range, v, 1.0);
    assert range * 1.0 == range && range * 0.0 == 0.0;
  }

  /** The level is in the mixer's range and follows the volume monotonically. */
  lemma MixerMonotone(min: int, max: int, v: real, w: real)
    requires min < max && InRange(v) && InRange(w) && v <= w
    ensures min <= ToMixer(min, max, v) <= ToMixer(min, max, w) <= max
  {
    hide Truncate;
    var range := (max - min) as real;
    var x, y := range * v, range * w;
    ToMixerOf(min, max, v, x);
    ToMixerOf(min, max, w, y);
    hide ToMixer;
    ScaleBounds(range, v);
    ScaleMonotone(range, v, w);
    ScaleBounds(range, w);
    TruncateMonotone(max - min, x, y);
  }

  lemma ToMixerOf(min: int, max: int, v: real, x: real)
    requires x == (max - min) as real * v
    ensures ToMixer(min, max, v) == min + Truncate(x)
  {
  }

  lemma TruncateMonotone(top: int, x: real, y: real)
    requires 0.0 <= x <= y <= top as real
    ensures 0 <= Truncate(x) <= Truncate(y) <= top
  {
  }

  /** Read back, the ends of the mixer are 0 and 1 and its levels are equally far apart. */
  lemma MixerScale(min: int, max: int, level: int)
    requires min < max
    ensures FromMixer(min, max, min) == 0.0 && FromMixer(min, max, max) == 1.0
    ensures (max - min) as real * (FromMixer(min, max, level + 1) - FromMixer(min, max, level)) == 1.0
    ensures ToMixer(min, max, 0.0) == min && ToMixer(min, max, 1.0) == max
  {
    var range := (max - min) as real;
    Quotient(range, (level + 1 - min) as real, 0.0);
    Quotient(range, (level - min) as real, 0.0);
    Quotient(range, range, 1.0);
    Quotient(range, 0.0, 0.0);
    ToMixerOf(min, max, 0.0, 0.0);
    ToMixerOf(min, max, 1.0, range);
  }

  /** Reading back loses less than one mixer step and never gains, and setting the value read back
      leaves the level where it is. */
  lemma MixerReadBack(min: int, max: int, v: real)
    requires min < max && InRange(v)
    ensures var back := FromMixer(min, max, ToMixer(min, max, v));
            && InRange(back) && back <= v && v - back < 1.0 / (max - min) as real
            && ToMixer(min, max, back) == ToMixer(min, max, v)
            && (back == v <==> ((max - min) as real * v).Floor as real == (max - min) as real * v)
  {
    var range := (max - min) as real;
    ScaleBounds(range, v);
    var x := range * v;
    var whole := x.Floor;
    assert ToMixer(min, max, v) == min + whole;
    var back := whole as real / range;
    Quotient(range, whole as real, 0.0);
    Quotient(range, whole as real, v);
    assert FromMixer(min, max, min + whole) == back;
    assert range * back == whole as real && (whole as real).Floor == whole;
    assert ToMixer(min, max, back) == min + whole;
  }
}
