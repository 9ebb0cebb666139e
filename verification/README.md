# AverageBuddy moving averagers, in Dafny

This project models the AverageBuddy component: a fixed-window moving
averager and a rotation (angle) averager built on top of it.

- `Averager` (`averager.dfy`) is the canonical `Averager<T>`, taken at `T = real`.
  The window is a ring buffer of `MaxSize` slots. Each slot starts at a
  caller-supplied zero value. `NextIndex` starts at the sentinel `-1`.
  `Add` advances the index cyclically and then writes, so after an `Add` the
  index names the newest slot. `Average` is the sum of all slots divided by
  `MaxSize`, even before the window has filled. `Set` overwrites every slot.
  `Update` is `Add` followed by `Average`.
- `LegacyAverager` (`legacy_averager.dfy`) is the older `Averager<T>`. It writes
  at `_iNext` and then advances it, and it has no sentinel and no `Set`. A
  refinement lemma shows that it keeps exactly the same history as the
  canonical averager for every input sequence.
- `RotationAverager` (`rotation_averager.dfy`) covers both rotation averagers.
  One definition is parameterised by the unit chosen at construction:
  degrees (half turn 180) or radians (half turn `Math.PI`). Every `Add` except
  the first unwraps the incoming angle against `History[NextIndex]`, the most
  recently stored angle. The unwrap adds or removes one full turn when the
  angle lies more than a half turn away.
- `Window` (`window.dfy`) holds the shared arithmetic. It has the sum and
  mean, and the seeded summation loop both `Average` methods run. It also
  has the cyclic index facts, and `Rotate`, which relates the ring buffer to
  the chronological order of the samples.

Modelling choices:
- Values are exact `real`s and `T` is fixed to `real`.
- `MaxSize` is not stored. The model takes it to be the length of the history.
  That is what the source has for every sample size of zero or more. For a
  negative size the source keeps a negative `MaxSize` over an empty list; see
  "Left out".
- The constructors are total. A sample size of zero or less gives an empty
  window, as the source's fill loop does. Only a positive size gives a usable
  averager (`Valid`). `Add` and `Average` require a non-empty window. On an
  empty one the source's `Add` throws, and its `Average` divides the zero value
  by `MaxSize` or by 0; "Left out" gives each result. The source
  does not validate the size in the constructor and raises no configuration
  error, so the model raises none either.
- Source/RotationAverager.cs uses `NextIndex` and overrides a virtual `Add`.
  Only the canonical averager (AverageBuddy/Averager.cs) has these, so both
  rotation averagers are modelled on top of `Averager`.
- `Math.PI` is the constant `MathPi`. It is the exact rational value of the
  IEEE double `Math.PI` (884279719003555 / 2^48), and `MathPiBounds` places
  it between 3.14159 and 3.14160.

## Model

| member | source | states |
|---|---|---|
| Averager.New | AverageBuddy/Averager.cs:58-74 | a fresh averager has `max(sampleSize, 0)` slots, every slot equal to the zero value, and the index at the sentinel -1; it is usable exactly when `sampleSize >= 1` |
| Averager.Set | AverageBuddy/Averager.cs:90-96 | every slot holds the given value; the window length, the index and the zero value are unchanged |
| Averager.SetThenAverage | AverageBuddy/Averager.cs:86-96 | after `Set(v)` the mean is `v`, whatever the window held before |
| Averager.NextSlotMod | AverageBuddy/Averager.cs:121-125 | the slot after the index is `(index + 1) mod MaxSize`, starting from the sentinel -1 too |
| Averager.Add | AverageBuddy/Averager.cs:115-130 | the index moves one past the old index, or back to 0 when that would reach `MaxSize`, and so lies in `0..MaxSize-1`; that slot now holds the sample; no other slot and not the length changes |
| Averager.AddAdvances | AverageBuddy/Averager.cs:121-125 | after `Add` the index is `(old index + 1) mod MaxSize`, the sentinel -1 included |
| Averager.Average | AverageBuddy/Averager.cs:136-158 | the result is the sum of all `MaxSize` slots divided by `MaxSize`, with no dependence on the zero value |
| Window.SeededSum | AverageBuddy/Averager.cs:139-155 | the loop that seeds the total with the zero value, replaces it by slot 0 and adds the rest computes the plain sum of a non-empty window, and returns the seed on an empty one |
| Averager.Update | AverageBuddy/Averager.cs:104-109 | returns the state after `Add` and the mean of that window; the new mean is the old mean plus (new sample - evicted sample) / `MaxSize` |
| Averager.FreshAverage | AverageBuddy/Averager.cs:66-73 | a fresh averager reports its zero value as the average |
| Averager.FreshNextIndex | AverageBuddy/Averager.cs:121-128 | after `k >= 1` adds to a fresh averager the index is `(k - 1) mod MaxSize`, so the k-th add wrote slot `(k - 1) mod MaxSize`; with no adds it is still -1 |
| Averager.SentinelUntilFirstAdd | AverageBuddy/Averager.cs:121-125 | over any sequence of `Add` and `Set` calls, the index is -1 afterwards exactly when it was -1 before and no `Add` occurred: the sentinel is used up by the first `Add` and never returns |
| Averager.FreshState | AverageBuddy/Averager.cs:58-74 | the whole state after adding `vs` to a fresh averager is determined by the number of samples, the zero value and the last `MaxSize` values of "pre-fill, then `vs`" |
| Averager.FreshWindow | AverageBuddy/Averager.cs:115-130 | after adding `vs` to a fresh averager, the window holds the `MaxSize` most recent values of the stream "pre-fill zeros, then `vs`", rotated so the oldest sits in the slot the next `Add` overwrites |
| Averager.MeanBeforeFull | AverageBuddy/Averager.cs:143-157 | after `k <= MaxSize` adds to a fresh averager the average is (sum of the samples + `(MaxSize - k)` times zero) / `MaxSize`: it is biased toward zero until the window fills |
| Averager.SingleSample | AverageBuddy/Averager.cs:136-157 | one sample `v` into a fresh averager gives (`v` plus `MaxSize - 1` copies of zero) / `MaxSize` |
| Averager.SingleSampleProduct | AverageBuddy/Averager.cs:136-157 | the same in product form: `(v + (MaxSize - 1) * zero) / MaxSize` |
| Averager.MeanOfLastN | AverageBuddy/Averager.cs:98-109 | after at least `MaxSize` adds to a fresh averager the average is the mean of the last `MaxSize` samples |
| Averager.RepeatedSample | AverageBuddy/Averager.cs:98-109 | adding the same value `MaxSize` times to a fresh averager makes the average exactly that value |
| Averager.OldSamplesForgotten | AverageBuddy/Averager.cs:121-128 | two input streams of equal length that agree on their last `MaxSize` samples leave a fresh averager in the same state: older samples no longer affect anything |
| LegacyAverager.New | Source/Averager.cs:39-48 | a fresh averager has `max(SampleSize, 0)` slots, all equal to the zero value, and the write index 0; usable exactly when `SampleSize >= 1` |
| LegacyAverager.Add | Source/Averager.cs:67-76 | the sample is written at the old index, which is the only slot to change; the index then moves one past it, or back to 0 when that would reach `MaxSize` |
| LegacyAverager.AddAdvances | Source/Averager.cs:71-75 | after `Add` the write index is `(old index + 1) mod MaxSize` |
| LegacyAverager.Average | Source/Averager.cs:82-102 | the result is the sum of the history divided by its length, with no dependence on the zero value |
| LegacyAverager.Update | Source/Averager.cs:56-61 | returns the state after `Add` and the mean of that window; the new mean moves by (new sample - evicted sample) / length |
| LegacyAverager.FreshNext | Source/Averager.cs:70-75 | after `k` adds to a fresh averager the write index is `k mod MaxSize`, so the k-th add wrote slot `(k - 1) mod MaxSize` |
| LegacyAverager.NewCorresponds | Source/Averager.cs:31 | the fresh legacy state (write index 0) corresponds to the fresh canonical state (index -1): same window, and the legacy write index is the slot the canonical averager writes next |
| LegacyAverager.AddCorresponds | Source/Averager.cs:70-75 | write-then-advance and advance-then-write put a sample in the same slot: one `Add` on each side preserves the correspondence |
| LegacyAverager.SameHistory | Source/Averager.cs:67-76 | for every input sequence the legacy and canonical averagers, started with the same size and zero, hold identical histories and therefore identical averages |
| LegacyAverager.MeanOfLastN | Source/Averager.cs:50-61 | after at least `MaxSize` adds to a fresh averager the average is the mean of the last `MaxSize` samples, as the documentation of `Update` promises |
| RotationAverager.New | Source/RotationAverager.cs:15-18 | a fresh rotation averager is a base averager of `sampleSize` slots with zero value 0, all slots 0 and the index at the sentinel |
| RotationAverager.HalfTurn | AverageBuddy/AverageBuddy.SharedProject/RotationAverager.cs:42-49 | the unwrap threshold of each unit is positive: 180 for degrees, `Math.PI` for radians |
| RotationAverager.MathPiBounds | AverageBuddy/AverageBuddy.SharedProject/RotationAverager.cs:42 | the radian threshold `Math.PI` lies between 3.14159 and 3.14160 |
| RotationAverager.Unwrap | Source/RotationAverager.cs:43-52 | the stored angle is the input plus 0, +2t or -2t; +2t exactly when `prev - v > t`, -2t exactly when `prev - v < -t`, unchanged inside `[-t, t]`; when `abs(prev - v) <= 3t` it ends within t of `prev` |
| RotationAverager.UnwrapNearest | Source/RotationAverager.cs:43-52 | the stored angle is one of the representations `v - 2t`, `v`, `v + 2t` closest to `prev`; it equals `v` exactly when `abs(prev - v) <= t` |
| RotationAverager.UnwrapOnce | Source/RotationAverager.cs:44-52 | the correction is applied at most once: re-unwrapping a corrected angle changes nothing when `abs(prev - v) <= 3t`, and a farther angle stays more than t away |
| RotationAverager.Add | Source/RotationAverager.cs:35-56 | apart from the stored value, the effect is exactly the base `Add` (same index advance, single-slot write); the first insertion stores the angle unchanged; later ones store the angle unwrapped against `History[NextIndex]`, the most recently stored slot |
| RotationAverager.DegreesAdd | Source/RotationAverager.cs:37-55 | in degree mode, after the first insertion: `prev - v > 180` stores `v + 360`, `prev - v < -180` stores `v - 360`, otherwise `v` |
| RotationAverager.RadiansAdd | AverageBuddy/AverageBuddy.SharedProject/RotationAverager.cs:35-53 | in radian mode, after the first insertion: `prev - v > pi` stores `v + 2pi`, `prev - v < -pi` stores `v - 2pi`, otherwise `v` |
| RotationAverager.Update | AverageBuddy/Averager.cs:104-109 | the inherited `Update` dispatches to the overriding `Add` and returns the plain mean of the unwrapped window; that mean is the old mean plus (stored angle - evicted angle) / `MaxSize` |
| RotationAverager.SetKeepsFirstInsertion | Source/RotationAverager.cs:37-41 | `Set` leaves the sentinel in place, so on a fresh averager the first angle after `Set(w)` is stored unchanged however far it lies from `w` |
| RotationAverager.DegreesWrapExample | Source/RotationAverager.cs:44-55 | 179 then -179 degrees into a fresh two-slot averager store 179 and 181, and the mean is 180, not 0 |
| RotationAverager.RadiansWrapExample | AverageBuddy/AverageBuddy.SharedProject/RotationAverager.cs:42-53 | 3 then -3 radians into a fresh two-slot averager store 3 and `2pi - 3`, and the mean is pi, not 0 |

## Left out

- Locking: the `_lock` object and `lock` blocks (AverageBuddy/Averager.cs:24, 66, 118, 141) exist only for concurrent use. Every operation is modelled as sequential.
- IEEE float behaviour: rounding, NaN and infinity propagation are not modelled. Values are exact reals.
- RotationAverager.RadiansAdd: the full turn is exactly `2 * Math.PI`. The source adds `(float)(2.0 * Math.PI)`, which rounds to 6.2831854820251465, and the model does not reproduce that rounding.
- Seconds-based sizing: `ToFrames`, the `float sampleSeconds` constructors of both averagers and both rotation averagers, and the `MaxSeconds` setter are not modelled. They depend on a float multiply and a truncating cast.
- Generic `T`: the source does its arithmetic on `dynamic` values and dispatches at run time over types such as `Vector2D`, which are not part of this model. The model fixes `T` to `real`.
- Runtime capacity changes: the public `MaxSize` setter (AverageBuddy/Averager.cs:38, Source/Averager.cs:23) can make `MaxSize` differ from `History.Count` without resizing the list. The model ties `MaxSize` to the history length.
- Averager.New: a negative sample size is not kept. The source stores `MaxSize = sampleSize` (AverageBuddy/Averager.cs:63) over an empty list. The model maps every sample size of zero or less to the same empty window.
- Averager.Add, LegacyAverager.Add: on an empty window (sample size of zero or less) the source writes `History[0]` of an empty list and throws, after the debug assertion at AverageBuddy/Averager.cs:127 in debug builds. The model states this as a precondition and does not model the exception.
- Averager.Average: on an empty window the loop runs no iteration, and the source returns `zeroValue / MaxSize` (AverageBuddy/Averager.cs:139, 157). For float samples and a negative sample size this is the finite value zero / sampleSize. For size 0 it is a float division by zero: plus or minus infinity, or NaN when the zero value is 0. The model requires a non-empty window and does not give these results.
- LegacyAverager.Average: on an empty window the source returns `ZeroValue / History.Count` with a count of 0 (Source/Averager.cs:85-86, 101). For float samples that is plus or minus infinity, or NaN when the zero value is 0. The model requires a non-empty window.
