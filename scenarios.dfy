/** The repository's Sequence test cases, replayed on the model with one
    concrete Tween update: linear easing, time clamped to the Tween's
    span, and the excess past either bound kept as the overflow. */
module Scenarios {
  import opened Tweens
  import opened Playback
  import opened Sequences

  /** A Tween update with linear easing. Reaching or passing `duration`
      completes the Tween at `end`; going below zero completes it at
      `begin`; in both cases the excess becomes the overflow. */
  function LinearUpdate(t: Tween, delta: real): (a: Advanced)
    ensures SameConfig(a.tween, t)
    ensures a.completed <==> !(0.0 <= t.time + delta < t.duration)
    ensures a.completed ==> a.tween.time + a.tween.overflow == t.time + delta
    ensures !a.completed ==> a.tween.time == t.time + delta && a.tween.overflow == 0.0
  {
    var time := t.time + delta;
    if time >= t.duration then
      Advanced(t.(time := t.duration, overflow := time - t.duration), t.end, true)
    else if time < 0.0 then
      Advanced(t.(time := 0.0, overflow := time), t.begin, true)
    else
      Advanced(t.(time := time, overflow := 0.0), t.begin + (t.end - t.begin) * time / t.duration, false)
  }

  /** A fresh Tween with linear easing. */
  function Linear(begin: real, end: real, duration: real): Tween
  {
    NewTween(begin, end, duration, "Linear")
  }

  /** Two Tweens of one unit: half a unit stays in the first, one unit
      completes the first exactly, one and a half completes the first and
      goes half-way through the second. */
  lemma TwoTweens()
    ensures var ts := [Linear(0.0, 1.0, 1.0), Linear(1.0, 2.0, 1.0)];
      var half := Run(LinearUpdate, ts, 0, 0.5, false);
      var one := Run(LinearUpdate, ts, 0, 1.0, false);
      var more := Run(LinearUpdate, ts, 0, 1.5, false);
      half.value == 0.5 && !half.tweenCompleted && !half.seqFinished && half.index == 0 &&
      one.value == 1.0 && one.tweenCompleted && !one.seqFinished && one.index == 1 &&
      more.value == 1.5 && more.tweenCompleted && !more.seqFinished && more.index == 1
  {
  }

  /** Three Tweens of one unit and a delta of three and a half: all three
      complete and the value is the last Tween's end. */
  lemma OverflowAndComplete()
    ensures var ts := [Linear(0.0, 1.0, 1.0), Linear(1.0, 2.0, 1.0), Linear(2.0, 3.0, 1.0)];
      var r := Run(LinearUpdate, ts, 0, 3.5, false);
      r.value == 3.0 && r.tweenCompleted && r.seqFinished && r.index == 3 &&
      r.tweens == ResetAll(ts)
  {
    var ts := [Linear(0.0, 1.0, 1.0), Linear(1.0, 2.0, 1.0), Linear(2.0, 3.0, 1.0)];
    var ts1 := ts[0 := Reset(LinearUpdate(ts[0], 3.5).tween)];
    var ts2 := ts1[1 := Reset(LinearUpdate(ts1[1], 2.5).tween)];
    var ts3 := ts2[2 := Reset(LinearUpdate(ts2[2], 1.5).tween)];
    assert Run(LinearUpdate, ts, 0, 3.5, false) == Run(LinearUpdate, ts1, 1, 2.5, true);
    assert Run(LinearUpdate, ts1, 1, 2.5, true) == Run(LinearUpdate, ts2, 2, 1.5, true);
    assert Run(LinearUpdate, ts2, 2, 1.5, true) == Run(LinearUpdate, ts3, 3, 0.5, true);
    assert ts3 == ResetAll(ts);
  }

  /** Removing, seeking and playing through the class's methods. */
  method Replay()
  {
    var s := new Sequence([Linear(0.0, 1.0, 1.0), Linear(1.0, 2.0, 1.0)]);
    s.SetIndex(1);
    var v, tc, fin := s.Update(LinearUpdate, 1.5);
    assert v == 2.0 && tc && fin && s.Index() == 2;

    s := new Sequence([Linear(0.0, 1.0, 1.0), Linear(1.0, 2.0, 1.0), Linear(2.0, 3.0, 1.0),
                       Linear(3.0, 4.0, 1.0), Linear(4.0, 5.0, 1.0)]);
    s.Remove(2);
    assert |s.tweens| == 4;
    ghost var ts := s.tweens;
    assert ts[2] == Linear(3.0, 4.0, 1.0);
    ghost var ts1 := ts[0 := Reset(LinearUpdate(ts[0], 2.5).tween)];
    ghost var ts2 := ts1[1 := Reset(LinearUpdate(ts1[1], 1.5).tween)];
    assert Run(LinearUpdate, ts, 0, 2.5, false) == Run(LinearUpdate, ts1, 1, 1.5, true);
    assert Run(LinearUpdate, ts1, 1, 1.5, true) == Run(LinearUpdate, ts2, 2, 0.5, true);
    v, tc, fin := s.Update(LinearUpdate, 2.5);
    assert v == 3.5 && tc && !fin && s.Index() == 2;
    s.Remove(0);
    s.Remove(0);
    s.Remove(0);
    s.Remove(0);
    assert !s.HasTweens();
    s.Remove(2);
    assert |s.tweens| == 0;
  }

  /** A longer session: Tweens of different lengths and directions, and a
      removal that leaves the index past the end. */
  method RealWorld()
  {
    var s := new Sequence([Linear(0.0, 5.0, 1.0), Linear(5.0, 0.0, 1.0), Linear(0.0, 2.0, 2.0),
                           Linear(2.0, 0.0, 2.0), Linear(0.0, 1.0, 100.0)]);
    s.Remove(0);
    s.Remove(0);
    assert |s.tweens| == 3;
    var v, tc, fin := s.Update(LinearUpdate, 1.0);
    assert v == 1.0 && !tc && !fin;
    v, tc, fin := s.Update(LinearUpdate, 1.0);
    assert v == 2.0 && s.Index() == 1 && tc && !fin;
    v, tc, fin := s.Update(LinearUpdate, 2.0);
    assert s.Index() == 2 && !fin;
    s.Remove(2);
    v, tc, fin := s.Update(LinearUpdate, 1.0);
    assert !tc && fin;
  }
}
