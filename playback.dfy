/** What one call of `Sequence.Update` does, as a function of the Tweens,
    the index and the delta it starts from. `Run` takes the loop's steps
    one at a time; the lemmas below state what a whole call achieves. */
module Playback {
  import opened Tweens

  /** The Tweens and the index after a call, and the call's three results. */
  datatype Outcome = Outcome(
    tweens: seq<Tween>,
    index: int,
    value: real,
    tweenCompleted: bool,
    seqFinished: bool)

  /** Playing from index `i` with `remaining` time left to hand out;
      `anyCompleted` records whether a Tween has completed so far in this
      call. While the active Tween completes, it is reset, the index moves
      on and the Tween's overflow is handed to the next one. */
  ghost function Run(advance: TweenUpdate, ts: seq<Tween>, i: int, remaining: real, anyCompleted: bool): Outcome
    requires 0 <= i && ts != []
    decreases |ts| - i
  {
    if i >= |ts| then
      Outcome(ts, i, ts[|ts| - 1].end, anyCompleted, true)
    else
      var a := advance(ts[i], remaining);
      if a.completed then
        Run(advance, ts[i := Reset(a.tween)], i + 1, a.tween.overflow, true)
      else
        Outcome(ts[i := a.tween], i, a.value, anyCompleted, false)
  }

  /** The deltas the visited Tweens are driven with, in the order they are
      visited: the first gets `remaining`, each later one the overflow of
      the Tween before it. */
  ghost function Fed(advance: TweenUpdate, ts: seq<Tween>, i: int, remaining: real): seq<real>
    requires 0 <= i
    decreases |ts| - i
  {
    if i >= |ts| then
      []
    else
      var a := advance(ts[i], remaining);
      if a.completed then
        [remaining] + Fed(advance, ts[i := Reset(a.tween)], i + 1, a.tween.overflow)
      else
        [remaining]
  }

  /** The index never goes back, does not run past the end of the list
      when it starts within it, and stays put when it starts past the
      end. The number of Tweens does not change. */
  lemma {:induction false} RunIndex(advance: TweenUpdate, ts: seq<Tween>, i: int, remaining: real, anyCompleted: bool)
    requires 0 <= i && ts != []
    ensures var r := Run(advance, ts, i, remaining, anyCompleted);
      |r.tweens| == |ts| &&
      i <= r.index &&
      (i <= |ts| ==> r.index <= |ts|) &&
      (i >= |ts| ==> r.index == i)
    decreases |ts| - i
  {
    if i < |ts| {
      var a := advance(ts[i], remaining);
      if a.completed {
        RunIndex(advance, ts[i := Reset(a.tween)], i + 1, a.tween.overflow, true);
      }
    }
  }

  /** The sequence is reported finished exactly when the index has reached
      the end of the list, and then the value is the final `end` of the
      last Tween. */
  lemma {:induction false} RunFinished(advance: TweenUpdate, ts: seq<Tween>, i: int, remaining: real, anyCompleted: bool)
    requires 0 <= i && ts != []
    ensures var r := Run(advance, ts, i, remaining, anyCompleted);
      |r.tweens| == |ts| &&
      (r.seqFinished <==> r.index >= |ts|) &&
      (r.seqFinished ==> r.value == r.tweens[|ts| - 1].end)
    decreases |ts| - i
  {
    RunIndex(advance, ts, i, remaining, anyCompleted);
    if i < |ts| {
      var a := advance(ts[i], remaining);
      if a.completed {
        RunFinished(advance, ts[i := Reset(a.tween)], i + 1, a.tween.overflow, true);
      }
    }
  }

  /** A Tween is reported completed exactly when one had completed before,
      or the index moved during this call, that is, when at least one
      Tween completed. */
  lemma {:induction false} RunCompleted(advance: TweenUpdate, ts: seq<Tween>, i: int, remaining: real, anyCompleted: bool)
    requires 0 <= i && ts != []
    ensures var r := Run(advance, ts, i, remaining, anyCompleted);
      r.tweenCompleted <==> (anyCompleted || r.index > i)
    decreases |ts| - i
  {
    if i < |ts| {
      var a := advance(ts[i], remaining);
      if a.completed {
        var ts' := ts[i := Reset(a.tween)];
        RunIndex(advance, ts', i + 1, a.tween.overflow, true);
        RunCompleted(advance, ts', i + 1, a.tween.overflow, true);
      }
    }
  }

  /** Tweens before the starting index and past the final index are left
      as they were. */
  lemma {:induction false} RunFrame(advance: TweenUpdate, ts: seq<Tween>, i: int, remaining: real, anyCompleted: bool)
    requires 0 <= i && ts != []
    ensures var r := Run(advance, ts, i, remaining, anyCompleted);
      |r.tweens| == |ts| &&
      forall j :: 0 <= j < |ts| && (j < i || r.index < j) ==> r.tweens[j] == ts[j]
    decreases |ts| - i
  {
    RunIndex(advance, ts, i, remaining, anyCompleted);
    if i < |ts| {
      var a := advance(ts[i], remaining);
      if a.completed {
        var ts' := ts[i := Reset(a.tween)];
        RunFrame(advance, ts', i + 1, a.tween.overflow, true);
      }
    }
  }

  /** Every Tween that completed during the call has been reset, and, when
      the Tween update keeps configurations, every Tween keeps its own. */
  lemma {:induction false} RunResets(advance: TweenUpdate, ts: seq<Tween>, i: int, remaining: real, anyCompleted: bool)
    requires 0 <= i && ts != []
    ensures var r := Run(advance, ts, i, remaining, anyCompleted);
      |r.tweens| == |ts| &&
      (forall j :: i <= j < r.index && j < |ts| ==> r.tweens[j].time == 0.0 && r.tweens[j].overflow == 0.0) &&
      (KeepsConfig(advance) ==> forall j :: 0 <= j < |ts| ==> SameConfig(r.tweens[j], ts[j]))
    decreases |ts| - i
  {
    RunIndex(advance, ts, i, remaining, anyCompleted);
    if i < |ts| {
      var a := advance(ts[i], remaining);
      var ts' := ts[i := Reset(a.tween)];
      if a.completed {
        RunFrame(advance, ts', i + 1, a.tween.overflow, true);
        RunResets(advance, ts', i + 1, a.tween.overflow, true);
      }
    }
  }

  /** When the Tween update keeps configurations and the call finishes the
      sequence, the value reported is the `end` of the last Tween. */
  lemma FinishedValue(advance: TweenUpdate, ts: seq<Tween>, i: int, remaining: real, anyCompleted: bool)
    requires 0 <= i && ts != [] && KeepsConfig(advance)
    ensures var r := Run(advance, ts, i, remaining, anyCompleted);
      r.seqFinished ==> r.value == ts[|ts| - 1].end
  {
    RunFinished(advance, ts, i, remaining, anyCompleted);
    RunResets(advance, ts, i, remaining, anyCompleted);
  }

  /** The overflow chain: the first visited Tween is driven with the delta
      the call started with, every visited Tween but the last completed
      and handed its overflow to the next, every completed Tween is left
      reset, and when the sequence is not finished the last visited Tween
      did not complete and supplied the value. */
  lemma {:induction false} RunTrace(advance: TweenUpdate, ts: seq<Tween>, i: int, remaining: real, anyCompleted: bool)
    requires 0 <= i && ts != []
    ensures var r := Run(advance, ts, i, remaining, anyCompleted);
      var f := Fed(advance, ts, i, remaining);
      |r.tweens| == |ts| &&
      (i >= |ts| ==> f == []) &&
      (i < |ts| ==> |f| > 0 && f[0] == remaining && i + |f| <= |ts|) &&
      (r.seqFinished && i <= |ts| ==> i + |f| == |ts|) &&
      (!r.seqFinished ==> i + |f| == r.index + 1) &&
      (forall j :: i <= j < i + |f| ==>
        var a := advance(ts[j], f[j - i]);
        (j + 1 < i + |f| ==> a.completed && f[j + 1 - i] == a.tween.overflow) &&
        (a.completed ==> r.tweens[j] == Reset(a.tween))) &&
      (!r.seqFinished ==>
        var a := advance(ts[r.index], f[|f| - 1]);
        !a.completed && r.tweens[r.index] == a.tween && r.value == a.value)
    decreases |ts| - i
  {
    RunIndex(advance, ts, i, remaining, anyCompleted);
    RunFinished(advance, ts, i, remaining, anyCompleted);
    if i < |ts| {
      var a := advance(ts[i], remaining);
      if a.completed {
        var ts' := ts[i := Reset(a.tween)];
        var r := Run(advance, ts, i, remaining, anyCompleted);
        var f := Fed(advance, ts, i, remaining);
        var f' := Fed(advance, ts', i + 1, a.tween.overflow);
        assert f == [remaining] + f';
        RunTrace(advance, ts', i + 1, a.tween.overflow, true);
        RunFrame(advance, ts', i + 1, a.tween.overflow, true);
        forall j | i <= j < i + |f|
          ensures var b := advance(ts[j], f[j - i]);
            (j + 1 < i + |f| ==> b.completed && f[j + 1 - i] == b.tween.overflow) &&
            (b.completed ==> r.tweens[j] == Reset(b.tween))
        {
          if j == i {
            assert advance(ts[j], f[j - i]) == a;
            assert r.tweens[i] == ts'[i];
            if j + 1 < i + |f| {
              assert f[j + 1 - i] == f'[0];
            }
          } else {
            assert f[j - i] == f'[j - (i + 1)];
            assert ts[j] == ts'[j];
            if j + 1 < i + |f| {
              assert f[j + 1 - i] == f'[j + 1 - (i + 1)];
            }
          }
        }
        if !r.seqFinished {
          assert ts[r.index] == ts'[r.index];
        }
      }
    }
  }
}
