/** The Sequence: an ordered list of Tweens played one after the other,
    with a cursor `index` on the active one. */
module Sequences {
  import opened Tweens
  import opened Playback

  /** The list with the element at `i` taken out, when `i` is a position
      of the list; the list unchanged otherwise. */
  function Removed(ts: seq<Tween>, i: int): (r: seq<Tween>)
    ensures 0 <= i < |ts| ==>
      |r| == |ts| - 1 &&
      (forall j :: 0 <= j < i ==> r[j] == ts[j]) &&
      (forall j :: i <= j < |r| ==> r[j] == ts[j + 1])
    ensures !(0 <= i < |ts|) ==> r == ts
  {
    if 0 <= i < |ts| then ts[..i] + ts[i + 1..] else ts
  }

  /** Removing a position loses exactly that one Tween and keeps the order
      of the others. */
  lemma RemovedMultiset(ts: seq<Tween>, i: int)
    requires 0 <= i < |ts|
    ensures multiset(Removed(ts, i)) + multiset{ts[i]} == multiset(ts)
    ensures Removed(ts, i) == ts[..i] + ts[i + 1..]
  {
    assert ts == ts[..i] + [ts[i]] + ts[i + 1..];
  }

  /** Removing the last position undoes an append of one Tween. */
  lemma RemoveUndoesAdd(ts: seq<Tween>, t: Tween)
    ensures Removed(ts + [t], |ts|) == ts
  {
  }

  /** Every Tween of the list rewound to its start. */
  function ResetAll(ts: seq<Tween>): (r: seq<Tween>)
    ensures |r| == |ts|
    ensures forall j :: 0 <= j < |ts| ==> r[j] == Reset(ts[j])
  {
    if ts == [] then [] else [Reset(ts[0])] + ResetAll(ts[1..])
  }

  /** Resetting the whole list a second time changes nothing. */
  lemma ResetAllIdempotent(ts: seq<Tween>)
    ensures ResetAll(ResetAll(ts)) == ResetAll(ts)
  {
  }

  class Sequence {
    /** The Tweens, in playing order. */
    var tweens: seq<Tween>
    /** The position of the active Tween; it may run past the end of the
        list, and nothing stops a caller from making it negative. */
    var index: int

    /** A Sequence of the given Tweens, positioned at the first. */
    constructor (ts: seq<Tween>)
      ensures tweens == ts && index == 0
    {
      tweens := ts;
      index := 0;
    }

    /** Appends Tweens, in order, after the existing ones. */
    method Add(ts: seq<Tween>)
      modifies this
      ensures |tweens| == |old(tweens)| + |ts|
      ensures tweens[..|old(tweens)|] == old(tweens)
      ensures tweens[|old(tweens)|..] == ts
      ensures index == old(index)
    {
      tweens := tweens + ts;
    }

    /** Removes the Tween at position `i` when there is one; any other `i`
        is ignored. The index is never adjusted. */
    method Remove(i: int)
      modifies this
      ensures tweens == Removed(old(tweens), i)
      ensures index == old(index)
    {
      if 0 <= i < |tweens| {
        tweens := tweens[..i] + tweens[i + 1..];
      }
    }

    /** Drives the active Tween by `dt` with the Tween update `advance`.
        Each time the active Tween completes, it is reset, the index moves
        on and its overflow drives the next Tween, until one does not
        complete or the list runs out. Returns the value, whether at least
        one Tween completed, and whether the sequence is finished. The
        list must not be empty and the index not negative: otherwise the
        list is read outside its bounds. */
    method Update(advance: TweenUpdate, dt: real) returns (value: real, tweenCompleted: bool, seqFinished: bool)
      requires 0 <= index && tweens != []
      modifies this
      ensures Outcome(tweens, index, value, tweenCompleted, seqFinished)
           == Run(advance, old(tweens), old(index), dt, false)
      ensures |tweens| == |old(tweens)|
      ensures old(index) <= index
      ensures old(index) <= |tweens| ==> index <= |tweens|
      ensures seqFinished <==> index >= |tweens|
      ensures seqFinished ==> value == tweens[|tweens| - 1].end
      ensures seqFinished && KeepsConfig(advance) ==> value == old(tweens)[|tweens| - 1].end
      ensures tweenCompleted <==> old(index) < index
      ensures forall j :: 0 <= j < |tweens| && (j < old(index) || index < j) ==> tweens[j] == old(tweens)[j]
      ensures forall j :: old(index) <= j < index && j < |tweens| ==> tweens[j].time == 0.0 && tweens[j].overflow == 0.0
    {
      RunIndex(advance, tweens, index, dt, false);
      RunFinished(advance, tweens, index, dt, false);
      RunCompleted(advance, tweens, index, dt, false);
      RunFrame(advance, tweens, index, dt, false);
      RunResets(advance, tweens, index, dt, false);
      if KeepsConfig(advance) {
        FinishedValue(advance, tweens, index, dt, false);
      }
      var completed: seq<int> := [];
      var remaining := dt;
      while index < |tweens|
        invariant old(index) <= index && |tweens| == |old(tweens)|
        invariant |completed| == index - old(index)
        invariant forall k :: 0 <= k < |completed| ==> completed[k] == old(index) + k
        invariant Run(advance, tweens, index, remaining, |completed| > 0)
               == Run(advance, old(tweens), old(index), dt, false)
        decreases |tweens| - index
      {
        ghost var before, c := tweens, |completed| > 0;
        var a := advance(tweens[index], remaining);
        tweens := tweens[index := a.tween];
        if a.completed {
          ghost var r := remaining;
          remaining := tweens[index].overflow;
          completed := completed + [index];
          tweens := tweens[index := Tweens.Reset(tweens[index])];
          assert tweens == before[index := Tweens.Reset(a.tween)];
          assert Run(advance, before, index, r, c) == Run(advance, tweens, index + 1, remaining, true);
          index := index + 1;
        } else {
          return a.value, |completed| > 0, false;
        }
      }
      return tweens[|tweens| - 1].end, |completed| > 0, true;
    }

    /** The current index; it can exceed the number of Tweens. */
    function Index(): (i: int)
      reads this
      ensures i == index
    {
      index
    }

    /** Resets the Tween at the current index, which must be a position of
        the list, then moves the index to `i`, which is not checked. */
    method SetIndex(i: int)
      requires 0 <= index < |tweens|
      modifies this
      ensures |tweens| == |old(tweens)|
      ensures tweens[old(index)] == Tweens.Reset(old(tweens)[old(index)])
      ensures forall j :: 0 <= j < |tweens| && j != old(index) ==> tweens[j] == old(tweens)[j]
      ensures index == i
    {
      tweens := tweens[index := Tweens.Reset(tweens[index])];
      index := i;
    }

    /** Resets every Tween and moves the index back to the first. */
    method Reset()
      modifies this
      ensures tweens == ResetAll(old(tweens))
      ensures index == 0
    {
      var k := 0;
      while k < |tweens|
        invariant 0 <= k <= |tweens| == |old(tweens)|
        invariant forall j :: 0 <= j < k ==> tweens[j] == Tweens.Reset(old(tweens)[j])
        invariant forall j :: k <= j < |tweens| ==> tweens[j] == old(tweens)[j]
      {
        tweens := tweens[k := Tweens.Reset(tweens[k])];
        k := k + 1;
      }
      index := 0;
    }

    /** Whether the Sequence holds any Tween. */
    function HasTweens(): (b: bool)
      reads this
      ensures b <==> tweens != []
    {
      |tweens| > 0
    }
  }
}
