# gween Sequence playback, modelled in Dafny

This project models the `Sequence` type of the Go tweening library gween
(`sequence.go`). A Sequence holds an ordered list of Tweens and an integer
`index` that points at the active one. `Update(dt)` drives the active Tween.
Each time that Tween completes, its leftover time (`Overflow`) is taken, the
Tween is reset, the index moves on, and the leftover drives the next Tween.
This repeats until a Tween does not complete or the list runs out. `Add`,
`Remove`, `Reset`, `SetIndex`, `Index` and `HasTweens` manage the list and
the cursor.

Files and modules:

- `tween.dfy`, module `Tweens`: the Tween as a value (`begin`, `end`,
  `duration`, the name of its easing curve, `time`, `overflow`), its `Reset`,
  and `TweenUpdate`, the type of a Tween's own update. The Tween's update
  code is not part of this model. `Sequence.Update` receives it as a
  parameter `advance`. The only thing assumed of it is `KeepsConfig`: it
  never changes `begin`, `end`, `duration` or the easing.
- `playback.dfy`, module `Playback`: `Run`, a function that takes the update
  loop's steps one at a time, and `Fed`, the deltas the visited Tweens are
  driven with. The lemmas state what a whole call of `Update` achieves.
- `sequence.dfy`, module `Sequences`: the class `Sequence` with fields
  `tweens: seq<Tween>` and `index: int`, and the functions `Removed` and
  `ResetAll` that describe `Remove` and `Reset`. `Update` is a `while` loop
  over the index with measure `|tweens| - index`. Its postcondition equates
  the new state and the results with `Run` of the old state, and restates
  the lemmas' conclusions for the caller.
- `scenarios.dfy`, module `Scenarios`: the repository's Sequence tests
  replayed on the model. They use one concrete Tween update, `LinearUpdate`:
  linear easing, time clamped to `[0, duration]`, and the excess past either
  bound kept as the overflow.

Where the tests and the code disagree, the model follows the code. The
tests (sequence_test.go:340-351) expect `Update` on an empty Sequence to
report the sequence finished. In `sequence.go:37-38` the code reads
`Tweens[len(Tweens)-1]`, which is out of range for an empty list. So
`Update` requires a non-empty list. The same goes for a negative index,
which `SetIndex` lets a caller set.

## Model

| member | source | states |
|---|---|---|
| `Tweens.Reset` | sequence.go:44 | a reset Tween has time and overflow zero and keeps its configuration; resetting a Tween already at its start changes nothing |
| `Sequences.Sequence.constructor` | sequence.go:10-15 | a new Sequence holds exactly the given Tweens, in order, with index 0 |
| `Sequences.Sequence.Add` | sequence.go:18-20 | the given Tweens are appended in order; the existing prefix and the index are unchanged |
| `Sequences.Removed` | sequence.go:23-27 | for a position `i` of the list, the result is one shorter, equal to the list before `i` and shifted by one from `i` on; for any other `i` it is the list unchanged |
| `Sequences.RemovedMultiset` | sequence.go:23-27 | removing position `i` loses exactly the Tween at `i`, as a multiset, and the result is the list around `i` in its original order |
| `Sequences.RemoveUndoesAdd` | sequence.go:18-27 | removing the last position undoes appending one Tween |
| `Sequences.Sequence.Remove` | sequence.go:23-27 | the list becomes `Removed` of the old list, so an out-of-range `i` changes nothing; the index is never adjusted |
| `Sequences.Sequence.Update` | sequence.go:31-50 | the loop terminates with measure `len - index`; the new list, index and the three results are those of `Run`; the index never decreases, and it does not pass the end if it started at or before it; finished exactly when the index reached the end of the list, and then the value is the last Tween's `end`, its original one when the Tween update keeps configurations; a Tween is reported completed exactly when the index moved; Tweens outside the visited range are untouched and visited completed ones are reset |
| `Playback.RunIndex` | sequence.go:36-49 | the index never decreases, stays at or below the list length when it starts there, and is unchanged when it starts past the end; the list length is unchanged |
| `Playback.RunFinished` | sequence.go:37-38 | the sequence is reported finished exactly when the index is at or past the end, and then the value is the `end` of the last Tween |
| `Playback.FinishedValue` | sequence.go:38 | when the Tween update keeps configurations, a finished call reports the `end` the last Tween had before the call |
| `Playback.RunCompleted` | sequence.go:33-47 | a Tween is reported completed exactly when one completed in this call, that is, when the index moved, on both return paths |
| `Playback.RunFrame` | sequence.go:36-49 | Tweens before the starting index and after the final index are left as they were |
| `Playback.RunResets` | sequence.go:41-45 | every Tween that completed in this call has time and overflow zero; when the Tween update keeps configurations every Tween keeps its configuration |
| `Playback.RunTrace` | sequence.go:40-45 | the first visited Tween is driven with `dt`; each visited Tween but the last completed and its overflow is the delta of the next; each completed Tween is left as the reset of its updated self; when not finished, the last visited Tween did not complete, is left as updated, and supplied the value; the number of visited Tweens matches the final index |
| `Sequences.Sequence.Index` | sequence.go:53-55 | returns the cursor as it is, which can exceed the number of Tweens |
| `Sequences.Sequence.SetIndex` | sequence.go:58-61 | with the old index in range, only the Tween at the old index is reset, and the index becomes `i` with no bounds check |
| `Sequences.ResetAll` | sequence.go:64-69 | same length, and each Tween is the reset of the one at the same position |
| `Sequences.ResetAllIdempotent` | sequence.go:64-69 | resetting every Tween a second time changes nothing |
| `Sequences.Sequence.Reset` | sequence.go:64-69 | every Tween is reset in place with membership and order unchanged, and the index is 0 |
| `Sequences.Sequence.HasTweens` | sequence.go:72-74 | true exactly when the list is not empty |
| `Scenarios.TwoTweens` | sequence_test.go:22-74 | two one-unit Tweens: `Update(0.5)` gives 0.5 at index 0 with nothing completed; `Update(1.0)` gives 1 at index 1, completed, not finished; `Update(1.5)` gives 1.5 at index 1, completed, not finished |
| `Scenarios.OverflowAndComplete` | sequence_test.go:76-88 | three one-unit Tweens and `Update(3.5)` give 3, completed, finished, index 3, with every Tween reset |

## Left out

- The Tween's own update, its clamping and its easing curves are not part of
  this model. A caller supplies the update as `advance`. The only contract
  the lemmas assume of it is `KeepsConfig`. `LinearUpdate` is one example,
  used only to replay the tests.
- Time is a real number. The source's `float32` rounding is not modelled.
- Tweens are values in a `seq`, not pointers. Two positions holding the
  same Tween object, and the sharing of the backing array that Go's `append`
  can cause in `Remove`, are not modelled.
- The JSON round trip and `Equal` of the tests are not part of this model.
  They are serialization code and an easing registry outside `sequence.go`.
- Loops, yoyo and reverse playback (`SetLoop`, `SetYoyo`, `SetReverse`,
  `Reverse`, `LoopRemaining`) appear in the tests but not in `sequence.go`.
- The empty-Sequence test (sequence_test.go:340-351) expects `Update` to
  report the sequence finished. The code as written reads outside the list
  there, so `Update` requires a non-empty list instead. That test is
  therefore not replayed.
- When the sequence is not finished, `Update` returns the value the Tween
  update gives. It is related to the Tween's
  `begin`, `end` and `time` only in the `LinearUpdate` scenarios.
