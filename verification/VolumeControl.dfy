/** The statics of src/volume_control.c and of the volume functions of src/audio_output.c, updated
    in place. Locking, callbacks and logging are not modelled. */
module VolumeControl {
  import opened VolumeModel

  /** `hardware` stands for everything `audio_output_set_volume` needs in order to reach a mixer
      element: the option, an open device and a mixer that opens. */
  class AudioOutput {
    const hardware: bool
    const min: int
    const max: int
    var level: int

    constructor (hardware: bool, min: int, max: int, level: int)
      requires min < max
      ensures this.hardware == hardware && this.min == min && this.max == max && this.level == level
    {
      this.hardware, this.min, this.max, this.level := hardware, min, max, level;
    }

    /** `audio_output_set_volume`. */
    method SetVolume(volume: real) returns (status: int)
      modifies this
      ensures status == if InRange(volume) then 0 else -1
      ensures level == if InRange(volume) && hardware then ToMixer(min, max, volume) else old(level)
    {
      if volume < 0.0 || volume > 1.0 {
        return -1;
      }
      if hardware {
        var scaled := (max - min) as real * volume;
        level := min + (if scaled >= 0.0 then scaled.Floor else -((-scaled).Floor));
      }
      return 0;
    }

    /** `audio_output_get_volume`. */
    method GetVolume() returns (volume: real)
      requires min < max
      ensures volume == if hardware then FromMixer(min, max, level) else 0.5
    {
      volume := 0.5;
      if hardware {
        volume := (level - min) as real / (max - min) as real;
      }
    }
  }

  class VolumeControl {
    var current: real
    var muted: bool
    const output: AudioOutput
    ghost var pushed: seq<real>

    function State(): Volume
      reads this
    {
      Volume(current, muted)
    }

    /** The volume is in range, and once anything was pushed the mixer shows what should be heard. */
    ghost predicate Valid()
      reads this, output
    {
      && output.min < output.max
      && InRange(current)
      && (forall i :: 0 <= i < |pushed| ==> InRange(pushed[i]))
      && (pushed != [] ==> pushed[|pushed| - 1] == Audible(State()))
      && (pushed != [] && output.hardware ==> output.level == ToMixer(output.min, output.max, Audible(State())))
    }

    /** `volume_control_init`, which pushes nothing. */
    constructor (output: AudioOutput)
      requires output.min < output.max
      ensures Valid() && State() == INITIAL && pushed == [] && this.output == output
      ensures current == 0.5 && !muted
    {
      this.output, current, muted, pushed := output, 0.5, false, [];
    }

    /** The push shared by all commands; the audio output never refuses it. */
    method Push()
      requires output.min < output.max && InRange(current)
      requires forall i :: 0 <= i < |pushed| ==> InRange(pushed[i])
      modifies this`pushed, output
      ensures Valid() && pushed == old(pushed) + [Audible(State())]
    {
      var status := output.SetVolume(if muted then 0.0 else current);
      assert status == 0;
      pushed := pushed + [Audible(State())];
    }

    method SetVolume(volume: real) returns (status: int)
      requires Valid()
      modifies this, output
      ensures Valid() && State() == Apply(old(State()), Set(volume))
      ensures status == if 0.0 <= volume <= 1.0 then 0 else -1
      ensures muted == old(muted) && current == if status == 0 then volume else old(current)
      ensures pushed == old(pushed) + Pushes(old(State()), [Set(volume)])
      ensures pushed == old(pushed) + if status != 0 then [] else if muted then [0.0] else [volume]
      ensures status != 0 ==> output.level == old(output.level)
    {
      if volume < MIN_VOLUME || volume > MAX_VOLUME {
        return -1;
      }
      current := volume;
      Push();
      return 0;
    }

    method SetMute(mute: bool)
      requires Valid()
      modifies this, output
      ensures Valid() && State() == Apply(old(State()), Mute(mute))
      ensures muted == mute && current == old(current)
      ensures pushed == old(pushed) + Pushes(old(State()), [Mute(mute)])
      ensures pushed == old(pushed) + [if mute then 0.0 else current]
    {
      muted := mute;
      Push();
    }

    method StepUp()
      requires Valid()
      modifies this, output
      ensures Valid() && State() == Apply(old(State()), Up)
      ensures pushed == old(pushed) + Pushes(old(State()), [Up])
      ensures muted == old(muted) && current == if old(current) > 0.95 then 1.0 else old(current) + 0.05
      ensures pushed == old(pushed) + [if muted then 0.0 else current]
    {
      var newVolume := current + VOLUME_STEP;
      if newVolume > MAX_VOLUME {
        newVolume := MAX_VOLUME;
      }
      current := newVolume;
      Push();
    }

    method StepDown()
      requires Valid()
      modifies this, output
      ensures Valid() && State() == Apply(old(State()), Down)
      ensures pushed == old(pushed) + Pushes(old(State()), [Down])
      ensures muted == old(muted) && current == if old(current) < 0.05 then 0.0 else old(current) - 0.05
      ensures pushed == old(pushed) + [if muted then 0.0 else current]
    {
      var newVolume := current - VOLUME_STEP;
      if newVolume < MIN_VOLUME {
        newVolume := MIN_VOLUME;
      }
      current := newVolume;
      Push();
    }
  }
}
