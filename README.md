# Floyd's cycle detector, incrementally

A Dafny model of the `floyds` package of go-detect-cycle. The package runs the first phase
of Floyd's tortoise-and-hare algorithm one step at a time: it looks for the first index
i >= 1 with x_i = x_2i on a chain x_0, x_1 = next(x_0), .... It has two detectors:

- `Detector` is an immutable value. The caller advances it either with `Hare(step)`, passing
  the next hare value, or with `Tortoise(step)`, passing the next tortoise value. The detector
  makes the other runner's steps itself through the caller's `next` function. A `compare`
  function (equality by default) is applied only at even hare counts. A match clears `ok`.
  A `next` that reports "no more" sets `done`.
- `BranchingDetector` wraps a `Detector` and is driven only through `Hare`. This lets it follow
  one path of a recursive traversal. It keeps the hare values the tortoise has not reached yet
  in a queue, and feeds the tortoise from that queue (`nextUpdater.logNext`). Each value also
  carries a release closure (`genClear`), which nulls slots of the shared path buffer.

Files:

- `wrappers.dfy`: `Option` and `Result`.
- `detector.dfy` (module `Detectors`): the `Detector` datatype and its operations. Go's
  value-receiver methods become functions that return the updated copy. A nil `next` or
  `compare` is `None`. The receiver check `validate` is the precondition `Valid()`. The nil
  argument panics of `NewDetector`, `SetNext` and `SetCompare` become `Failure` results.
- `runs.dfy` (module `DetectorRuns`): sequences of calls, and what they compute.
  - The counter relation holds after any mix of `Hare` and `Tortoise` calls.
  - Runs are monotone.
  - `Reached(d, xs, n)` is the state Floyd's first phase is in after the chain values
    x_1..x_n. Feeding a chain to `Hare`, or feeding it to `Tortoise`, reaches that state.
  - The detector stops exactly at the first matching checkpoint.
- `branching.dfy` (module `Branching`): `BranchingDetector`.
  - `AfterHare` is the value a `Hare` call returns.
  - The method `Hare` performs the call the way the source does, with a fresh `NextUpdater`
    object whose `LogNext` and `UpdateNext` mutate it, and is proved equal to `AfterHare`.
  - `ClearSlots` is the release closure, acting on an array in place.
  - Along any path, the queue is exactly the path values between the tortoise and the hare.
- `scenarios.dfy` (module `Scenarios`): the concrete runs the repository's tests check.

Behaviour the code has, which the model follows:

- When `next` runs out on one of the two hare steps that follow the new tortoise in `Tortoise`,
  the work already done is kept: the new tortoise, and on the second step one hare step. When
  the catch-up hare step of `Tortoise` runs out, or the tortoise step of `Hare`, only `done`
  changes.
- Before `done`, the tortoise count is ceil(hareCount / 2), that is `(hareCount + 1) / 2`,
  because `Hare` advances the tortoise on the even count before the hare moves.

## Model

| member | source | states |
|---|---|---|
| Detectors.NewDetector | floyds/floyds.go:96-106 | The result is an error exactly when `next` is nil. Otherwise the tortoise and hare are both `start`, `ok` is true, `done` is false, both counts are 0, and `next` is kept. The caller's `compare` is kept, or equality is used when none is given. |
| Detectors.DefaultCompareIsEquality | floyds/floyds.go:91-104 | Without a caller compare, a constructed detector reports a match exactly for equal values. |
| Detectors.Detector.Check | floyds/floyds.go:120-127 | A true result implies `ok` was true, so a lost `ok` is never restored. With `ok` true, the result is true exactly when tortoise and hare do not match. |
| Detectors.Detector.SetNext | floyds/floyds.go:129-137 | Fails exactly for a nil argument. Otherwise the result is the receiver with only `next` replaced. |
| Detectors.Detector.SetCompare | floyds/floyds.go:139-147 | Fails exactly for a nil argument. Otherwise the result is the receiver with only `compare` replaced. |
| Detectors.Detector.Hare | floyds/floyds.go:149-179 | A stopped or done receiver is returned unchanged. `ok` is never regained and `done` is never cleared. On an even count where the tortoise's `next` runs out, only `done` changes. Otherwise: the hare becomes `step`; the hare count goes up by exactly 1; on an even old count the tortoise takes one `next` step and its count goes up by 1; the result is `ok` exactly when the new count is odd or tortoise and hare do not match. |
| Detectors.Detector.TortoisePair | floyds/floyds.go:205-231 | The tortoise becomes `step` and its count goes up by 1. If `next` runs out on the first hare step, only `done` changes besides this. If it runs out on the second, one hare step is kept and `done` is set. Otherwise the hare takes two `next` steps, its count goes up by 2, and `ok` survives exactly when there is no match. |
| Detectors.Detector.Tortoise | floyds/floyds.go:181-232 | A stopped or done receiver is returned unchanged. On an even hare count it is the tortoise step plus two hare steps. On an odd count, the pending hare step comes first. If that step runs out, only `done` changes. If it yields a match, the call stops there with `ok` false. Otherwise the call continues with the tortoise step and two more hare steps. |
| DetectorRuns.HareKeepsCounters | floyds/floyds.go:157-176 | `Hare` keeps the counter relation: before `done`, tortoise count = ceil(hare count / 2), and `ok` is lost only at an even hare count. |
| DetectorRuns.TortoiseKeepsCounters | floyds/floyds.go:189-231 | `Tortoise` keeps the counter relation. After a call that did not run out, the hare count is exactly twice the tortoise count. |
| DetectorRuns.RunKeepsCounters | floyds/floyds.go:149-232 | From the constructor, any sequence of `Hare` and `Tortoise` calls keeps the counter relation. |
| DetectorRuns.RunIsMonotone | floyds/floyds.go:149-232 | Over any sequence of calls: counts never decrease, a reported cycle is never withdrawn, `done` is permanent, and a stopped or done detector is left exactly as it is. |
| DetectorRuns.StoppedStaysReached | floyds/floyds.go:153-155 | A detector that has reported a cycle is in the reached state for every longer prefix of the chain. |
| DetectorRuns.HareStepReached | floyds/floyds.go:149-179 | One `Hare` call with x_n takes the state reached after x_1..x_(n-1) to the state reached after x_1..x_n, whenever the tortoise's `next` step yields the next chain value. |
| DetectorRuns.HareDrivenRun | floyds/floyds.go:149-179 | Feeding x_1..x_n to `Hare` on a fresh detector whose `next` follows the chain gives Floyd's phase-1 state. Either no checkpoint j <= n/2 has x_j matching x_2j, and the hare is at x_n with the tortoise at x_ceil(n/2). Or the detector stopped at the first matching checkpoint j, with the tortoise at x_j and the hare at x_2j. It is never done. |
| DetectorRuns.TortoiseStepReached | floyds/floyds.go:181-232 | One `Tortoise` call with x_k takes the state reached after x_1..x_(2k-2) to the state reached after x_1..x_2k. |
| DetectorRuns.TortoiseDrivenRun | floyds/floyds.go:181-232 | Feeding x_1..x_k to `Tortoise` reaches the phase-1 state after x_1..x_2k. |
| DetectorRuns.TortoiseRunsOut | floyds/floyds_test.go:549-651 | Over a finite chain whose last value has no successor and with no matching checkpoint, floor((len - 1) / 2) `Tortoise` calls and one more leave the detector done, with `ok` true, the hare at the last value and hare count len - 1, for either parity of the length. |
| DetectorRuns.StopsAtFirstMatch | floyds/floyds.go:40-51 | In a reached state, if checkpoint k is the first that matches and 2k values have been seen, the detector reports the cycle: tortoise count k, hare count 2k, tortoise x_k, hare x_2k. |
| Branching.NewBranchingDetector | floyds/floyds.go:266-276 | The wrapped detector is in the initial state at `start`, with the always-exhausted step function. The caller's compare is kept, and a missing one becomes equality, as in `NewDetector`. The queue is empty and there is no release. |
| Branching.NextUpdater.constructor | floyds/floyds.go:289-292 | A new updater holds the given queue. |
| Branching.LogNext | floyds/floyds.go:294-304 | A nil updater reports exhaustion. Otherwise the result is the queue's front, and the front is removed; an empty queue reports exhaustion and stays empty. |
| Branching.UpdateNext | floyds/floyds.go:330-341 | A nil updater returns its argument unchanged. Otherwise the result takes the updater's queue and gets the always-exhausted step function, and the updater is emptied. |
| Branching.ClearSlots | floyds/floyds.go:306-328 | With `all`, every slot of the window becomes null. Without it, only the window's last slot does. An empty window is left alone. No slot outside the window changes. |
| Branching.BranchingDetector.Clear | floyds/floyds.go:278-287 | A value without a release leaves the buffer unchanged. Otherwise the release nulls the whole window or only its last slot, as `genClear` does. |
| Branching.BranchingDetector.AfterHare | floyds/floyds.go:346-365 | A stopped or done value is returned unchanged. Otherwise the wrapped detector never runs out: the hare becomes `step` and its count goes up by 1. On an even count the tortoise takes the front of the queue extended by `step`, its count goes up by 1, and that front leaves the queue. On an odd count the tortoise stays and `step` is appended. The result is `ok` exactly when the new count is odd or the tortoise does not match `step`. The step function is reset to the exhausted one, and the release is chosen by `grew`. |
| Branching.BranchingDetector.Hare | floyds/floyds.go:343-365 | The updater-based call returns exactly `AfterHare(step, grew)`. A stopped or done receiver is returned unchanged. Otherwise `step` joins the queue, and the wrapped detector takes one hare step, with its tortoise taking the queue's front when it advances. The front leaves the queue exactly then. The step function is reset to the exhausted one. |
| Branching.BranchStepReached | floyds/floyds.go:343-365 | One `Hare` call with the next path value extends the path state by one value: the wrapped detector is in the reached state, and the queue is still the path values past the tortoise up to the hare. |
| Branching.QueueLength | floyds/floyds.go:353-356 | On a path, the queue holds hare count / 2 values. |
| Branching.BranchingRun | floyds/floyds.go:343-365 | Along any path x_1..x_n from `start`, with any append outcomes: the wrapped detector is in the phase-1 state after x_1..x_n and is never done. Its step function is the exhausted one. The queue is exactly x_(t+1)..x_h for tortoise count t and hare count h, so it has h / 2 values. |
| Scenarios.PeriodThreeFoundAtSix | floyds/floyds_test.go:10-49 | Driving `Hare` over the period-3 list finds no cycle after 5 steps, and reports it at hare count 6 with tortoise count 3. |
| Scenarios.AlwaysMatchingCompare | floyds/floyds_test.go:895-934 | With a compare that always matches, one `Hare` leaves `ok` at hare count 1, and a second clears it at hare count 2. A single `Tortoise` clears it with counts 1 and 2. |
| Scenarios.MixedHareAndTortoise | floyds/floyds_test.go:702-754 | `Hare` then `Tortoise` gives counts 2/4. Another `Hare` gives 3/5. Another `Tortoise` gives 4/8, with the period-4 match reported. |
| Scenarios.TortoiseExhaustsMidway | floyds/floyds.go:205-224 | `Tortoise` keeps partial progress: when the second hare step runs out, the new tortoise and one hare step remain, with `done` set. |
| Scenarios.TortoiseRunsOffTheEnd | floyds/floyds_test.go:549-598 | Over the list 0..20, ten `Tortoise` calls bring the hare to 20. The eleventh runs out at once, leaving hare count 20 and `ok` true. |
| Scenarios.TortoiseOddLengthRunsOut | floyds/floyds_test.go:600-651 | Over the list 0..21, the eleventh `Tortoise` call keeps one hare step before running out, leaving hare count 21, the hare at 21, and `ok` true. |
| Scenarios.HareExhaustsAtOnce | floyds/floyds.go:158-164 | A `Hare` call whose tortoise step runs out changes only `done`. |
| Scenarios.BranchingScenarios | floyds/floyds_test.go:1315-1327 | A branching detector passes its compare on. With one that always matches, the first hare step is fine and the second reports the cycle without `done`. |
| Scenarios.BackEdgeNotYetReported | floyds/floyds_test.go:1039-1106 | Along the traversal path 0, 2, 1, 2 no cycle is reported yet, and the queue holds the last value. |
| Scenarios.BackEdgeReported | floyds/floyds_test.go:1039-1106 | Along the path 0, 2, 1, 2, 1 the cycle is reported at hare count 4 and tortoise count 2, without `done`. |

The accessors `Ok`, `Done`, `HareCount` and `TortoiseCount` (floyds/floyds.go:114-118,
234-250, 367-386) are plain field reads under `Valid()`, so their contracts state nothing
beyond the field. The same holds for `emptyNext` (`EmptyNext`, floyds/floyds.go:261-264).

## Left out

- Panic messages: nil arguments become `Failure(NilNext)` or `Failure(NilCompare)`. A value
  not built by a constructor is excluded by `requires Valid()` rather than modelled as a panic.
- Go's `interface{}` values and dynamic type assertions: the model uses a generic `T`, and
  the default compare is Dafny equality on `T`.
- Integer overflow of the `int` counters: counters are unbounded `nat`.
- Branching.BranchingDetector.Hare: the growth decision `cap(updater.next) > cap(f.next)`
  depends on the Go runtime's `append` policy. It is the parameter `grew`, and it only
  chooses between the two releases.
- Sharing of one backing array between sibling branches is not modelled: the queue is a
  value, and `ClearSlots` and `Clear` take the buffer window as arguments.
- Branching.BranchingDetector.Hare: Go's `logNext` pops while the wrapped `Hare` runs.
  A Dafny function value cannot mutate, so the wrapped step answers the queue's front, and
  the pop is made right after that call, on the same condition: the wrapped detector was
  active at an even hare count.
- Branching.BranchingDetector.Clear: Go's release closure sets its captured slice to nil after
  it runs, so a second `Clear` on the same value, or on any copy sharing the closure, does
  nothing. The model keeps no such state: each `Clear` call nulls its window again.
- The order in which Go evaluates the operands of the composite literal at
  floyds/floyds.go:355-364 is not modelled beyond the pop above.
- Phases 2 and 3 of Floyd's algorithm (finding mu and lambda) are only described in a comment
  and are not implemented in the package.
- The randomised tests (`generateCycleMap`, `mapHasCycle`) and `TestReallocationOfSliceChecking`
  depend on `math/rand`, map iteration order and the Go runtime.
- Garbage collection and memory use are not behaviour the model can express.
