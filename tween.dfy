/** A single Tween, seen from the Sequence that drives it.
    The Tween's own update code is not part of this model: a Sequence
    drives its Tweens through a `TweenUpdate`, a function supplied by the
    caller, of which only the contract `KeepsConfig` is assumed. */
module Tweens {

  /** The name of an easing curve. The curve itself is left uninterpreted. */
  type EasingName = string

  /** One interpolation from `begin` to `end` over `duration`, with its
      playback position `time` and the leftover `overflow` of the last
      update that ran past a bound. Time is a real number in place of the
      source's 32-bit float. */
  datatype Tween = Tween(
    begin: real,
    end: real,
    duration: real,
    easing: EasingName,
    time: real,
    overflow: real)

  /** What one update of a Tween gives back: the Tween as it is afterwards,
      the interpolated value and whether the Tween completed. */
  datatype Advanced = Advanced(tween: Tween, value: real, completed: bool)

  /** The behaviour of a Tween's own update, given the Tween and a delta. */
  type TweenUpdate = (Tween, real) -> Advanced

  /** A fresh Tween, positioned at its start. */
  function NewTween(begin: real, end: real, duration: real, easing: EasingName): (t: Tween)
    ensures t.time == 0.0 && t.overflow == 0.0
    ensures t.begin == begin && t.end == end && t.duration == duration && t.easing == easing
  {
    Tween(begin, end, duration, easing, 0.0, 0.0)
  }

  /** Two Tweens have the same configuration: they interpolate the same
      values over the same duration with the same curve. */
  predicate SameConfig(a: Tween, b: Tween)
  {
    a.begin == b.begin && a.end == b.end && a.duration == b.duration && a.easing == b.easing
  }

  /** A Tween rewound to its start, with no overflow left. */
  function Reset(t: Tween): (r: Tween)
    ensures r.time == 0.0 && r.overflow == 0.0
    ensures SameConfig(r, t)
    ensures t.time == 0.0 && t.overflow == 0.0 ==> r == t
  {
    t.(time := 0.0, overflow := 0.0)
  }

  /** The contract every Tween update keeps: it moves the playback position
      and may set an overflow, but never changes the configuration. */
  ghost predicate KeepsConfig(advance: TweenUpdate)
  {
    forall t: Tween, d: real :: SameConfig(advance(t, d).tween, t)
  }
}
