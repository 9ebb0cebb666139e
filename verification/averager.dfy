/**
  The canonical fixed-window averager (AverageBuddy/Averager.cs), instantiated
  at exact reals.

  The window is a ring buffer of `MaxSize` slots pre-filled with the zero
  value. `nextIndex` starts at the sentinel -1 ("nothing added yet"); `Add`
  advances it cyclically BEFORE writing, so after any `Add` it names the slot
  most recently written. `Average` always divides by the full capacity.
  `MaxSize` is kept equal to the length of the history, so it is not stored.
 */
module Averager {
  import opened Window

  datatype Averager = Averager(history: seq<real>, nextIndex: int, zero: real)

  /** The capacity of the window. */
  function MaxSize(a: Averager): nat
  {
    |a.history|
  }

  /**
    A usable averager: a non-empty window and an index that is either the
    sentinel -1 or a slot of the window.
   */
  ghost predicate Valid(a: Averager)
  {
    1 <= |a.history| && -1 <= a.nextIndex < |a.history|
  }

  /**
    The constructor. A non-positive sample size yields an empty window (the
    fill loop runs zero times); only a positive one yields a usable averager.
   */
  function New(sampleSize: int, zero: real): (a: Averager)
    ensures |a.history| == if sampleSize > 0 then sampleSize else 0
    ensures forall i :: 0 <= i < |a.history| ==> a.history[i] == zero
    ensures a.nextIndex == -1 && a.zero == zero
    ensures Valid(a) <==> sampleSize >= 1
  {
    Averager(Filled(if sampleSize > 0 then sampleSize else 0, zero), -1, zero)
  }

  /** Overwrite every slot with `v`; the index and the zero value are kept. */
  function Set(a: Averager, v: real): (r: Averager)
    ensures |r.history| == |a.history|
    ensures forall i :: 0 <= i < |r.history| ==> r.history[i] == v
    ensures r.nextIndex == a.nextIndex && r.zero == a.zero
    ensures Valid(a) ==> Valid(r)
  {
    a.(history := Filled(|a.history|, v))
  }

  /** The slot the next `Add` writes: one past `nextIndex`, wrapping to 0. */
  function NextSlot(a: Averager): (i: nat)
    requires Valid(a)
    ensures i < |a.history|
  {
    if a.nextIndex + 1 >= MaxSize(a) then 0 else a.nextIndex + 1
  }

  /**
    Add a sample: advance the index cyclically, then write the sample there.
    Exactly that one slot changes.
   */
  function Add(a: Averager, v: real): (r: Averager)
    requires Valid(a)
    ensures Valid(r) && 0 <= r.nextIndex
    ensures a.nextIndex + 1 < |a.history| ==> r.nextIndex == a.nextIndex + 1
    ensures a.nextIndex + 1 == |a.history| ==> r.nextIndex == 0
    ensures |r.history| == |a.history| && r.zero == a.zero
    ensures r.history[r.nextIndex] == v
    ensures forall i :: 0 <= i < |a.history| && i != r.nextIndex ==> r.history[i] == a.history[i]
  {
    var next := NextSlot(a);
    Averager(a.history[next := v], next, a.zero)
  }

  /** The slot after `nextIndex` is one past it, reduced mod `MaxSize` (-1 included). */
  lemma NextSlotMod(a: Averager)
    requires Valid(a)
    ensures NextSlot(a) == (a.nextIndex + 1) % |a.history|
  {
    var r, n := a.nextIndex, |a.history|;
    if r + 1 < n {
      ModUnique(r + 1, n, 0, r + 1);
    } else {
      ModUnique(r + 1, n, 1, 0);
    }
  }

  /** `Add` advances the index cyclically: one past the old index, mod `MaxSize`. */
  lemma AddAdvances(a: Averager, v: real)
    requires Valid(a)
    ensures Add(a, v).nextIndex == (a.nextIndex + 1) % |a.history|
  {
    NextSlotMod(a);
  }

  /**
    The mean of the whole window: the seeded sum of all `MaxSize` slots
    divided by `MaxSize`, whatever the zero value and however many samples
    have been added.
   */
  method Average(a: Averager) returns (avg: real)
    requires |a.history| >= 1
    ensures avg == Sum(a.history) / (MaxSize(a) as real)
  {
    var sum := SeededSum(a.history, a.zero);
    avg := sum / (MaxSize(a) as real);
  }

  /**
    Add a sample and report the new mean. The new mean is the old one moved
    by the difference between the new sample and the sample it evicts.
   */
  method Update(a: Averager, v: real) returns (r: Averager, avg: real)
    requires Valid(a)
    ensures r == Add(a, v)
    ensures avg == Mean(r.history)
    ensures avg == Mean(a.history) + (v - a.history[r.nextIndex]) / (MaxSize(a) as real)
  {
    r := Add(a, v);
    avg := Average(r);
    SumUpdate(a.history, r.nextIndex, v);
  }

  /** Add the samples `vs` one after another, oldest first. */
  function AddAll(a: Averager, vs: seq<real>): (r: Averager)
    requires Valid(a)
    ensures Valid(r) && |r.history| == |a.history| && r.zero == a.zero
    ensures |vs| == 0 ==> r == a
    ensures |vs| > 0 ==> r.nextIndex >= 0
    decreases |vs|
  {
    if |vs| == 0 then a
    else Add(AddAll(a, vs[..|vs| - 1]), vs[|vs| - 1])
  }

  /** A fresh averager reports its zero value as the mean. */
  lemma FreshAverage(n: int, z: real)
    requires n >= 1
    ensures Mean(New(n, z).history) == z
  {
    assert New(n, z).history == Filled(n, z);
    MeanFilled(n, z);
  }

  /** After `Set(v)` the mean is `v`, whatever the window held before. */
  lemma SetThenAverage(a: Averager, v: real)
    requires |a.history| >= 1
    ensures Mean(Set(a, v).history) == v
  {
    MeanFilled(|a.history|, v);
  }

  /**
    The ring-buffer contents after adding `vs` to a fresh averager: treat the
    pre-fill as `n` earlier zero samples; the window holds the `n` most recent
    samples of that stream, with the oldest in the slot the next `Add` writes.
   */
  lemma {:induction false} FreshWindow(n: int, z: real, vs: seq<real>)
    requires n >= 1
    ensures AddAll(New(n, z), vs).history == Rotate(LastN(Filled(n, z) + vs, n), |vs| % n)
    decreases |vs|
  {
    if |vs| == 0 {
      assert LastN(Filled(n, z) + vs, n) == Filled(n, z);
      assert Rotate(Filled(n, z), 0) == Filled(n, z);
    } else {
      var vs', v := vs[..|vs| - 1], vs[|vs| - 1];
      var w := LastN(Filled(n, z) + vs', n);
      var prev := AddAll(New(n, z), vs');
      var p, q := |vs'| % n, |vs| % n;
      FreshWindow(n, z, vs');
      FreshNextSlot(n, z, vs');
      assert AddAll(New(n, z), vs) == Add(prev, v);
      assert LastN(Filled(n, z) + vs, n) == w[1..] + [v] by {
        assert vs == vs' + [v];
        assert Filled(n, z) + vs == (Filled(n, z) + vs') + [v];
        LastNAppend(Filled(n, z) + vs', v, n);
      }
      assert (p + 1) % n == q by { ModStep(|vs'|, n); }
      AddAtRotation(prev, w, p, v);
    }
  }

  /**
    One `Add` on a ring buffer laid out as `Rotate(w, p)`, whose next slot is
    `p`, lays out the chronological window shifted by the new sample.
   */
  lemma AddAtRotation(a: Averager, w: seq<real>, p: nat, v: real)
    requires Valid(a) && p < |w| == |a.history|
    requires a.history == Rotate(w, p) && NextSlot(a) == p
    ensures Add(a, v).history == Rotate(w[1..] + [v], (p + 1) % |w|)
  {
    RotateShift(w, p, v);
  }

  /** The whole state after adding `vs` to a fresh averager. */
  lemma FreshState(n: int, z: real, vs: seq<real>)
    requires n >= 1
    ensures AddAll(New(n, z), vs) ==
              Averager(Rotate(LastN(Filled(n, z) + vs, n), |vs| % n),
                       if |vs| == 0 then -1 else (|vs| - 1) % n, z)
  {
    FreshWindow(n, z, vs);
    FreshNextIndex(n, z, vs);
  }

  /**
    The sentinel is used up by the first `Add`: after `k >= 1` adds to a fresh
    averager, the most recent write went to slot `(k - 1) mod n`.
   */
  lemma {:induction false} FreshNextIndex(n: int, z: real, vs: seq<real>)
    requires n >= 1
    ensures AddAll(New(n, z), vs).nextIndex == if |vs| == 0 then -1 else (|vs| - 1) % n
    decreases |vs|
  {
    if |vs| > 0 {
      var k := |vs| - 1;
      var prev := AddAll(New(n, z), vs[..k]);
      FreshNextIndex(n, z, vs[..k]);
      assert |prev.history| == n;
      assert AddAll(New(n, z), vs) == Add(prev, vs[k]);
      AddAdvances(prev, vs[k]);
      if k > 0 {
        ModStep(k - 1, n);
      }
    }
  }

  /** After `k` adds to a fresh averager, the next write goes to slot `k mod n`. */
  lemma FreshNextSlot(n: int, z: real, vs: seq<real>)
    requires n >= 1
    ensures NextSlot(AddAll(New(n, z), vs)) == |vs| % n
  {
    FreshNextIndex(n, z, vs);
    NextSlotAfter(AddAll(New(n, z), vs), |vs|);
  }

  /** The next slot of an averager whose index records `k` adds from fresh. */
  lemma NextSlotAfter(a: Averager, k: nat)
    requires Valid(a)
    requires a.nextIndex == if k == 0 then -1 else (k - 1) % |a.history|
    ensures NextSlot(a) == k % |a.history|
  {
    var n := |a.history|;
    if k > 0 {
      NextSlotMod(a);
      ModStep(k - 1, n);
    }
  }

  /**
    Before the window has filled (at most `n` samples added to a fresh
    averager), the mean is biased toward the zero value: it is the total of
    the samples plus `n - k` copies of the zero value they have not yet
    displaced, always divided by the full capacity `n`.
   */
  lemma MeanBeforeFull(n: int, z: real, vs: seq<real>)
    requires n >= 1 && |vs| <= n
    ensures Mean(AddAll(New(n, z), vs).history) == (Sum(vs) + Times(n - |vs|, z)) / (n as real)
  {
    var w := LastN(Filled(n, z) + vs, n);
    FreshWindow(n, z, vs);
    SumRotate(w, |vs| % n);
    LastNOfPrefilled(n, z, vs);
    MeanPadded(n, z, vs);
  }

  /**
    Once at least `n` samples have been added to a fresh averager, the mean is
    exactly the mean of the last `n` samples.
   */
  lemma MeanOfLastN(n: int, z: real, vs: seq<real>)
    requires n >= 1 && |vs| >= n
    ensures Mean(AddAll(New(n, z), vs).history) == Mean(vs[|vs| - n..])
  {
    var w := LastN(Filled(n, z) + vs, n);
    FreshWindow(n, z, vs);
    SumRotate(w, |vs| % n);
    LastNOfPrefilled(n, z, vs);
  }

  /** A single sample into a fresh averager is averaged against `n - 1` zeros. */
  lemma SingleSample(n: int, z: real, v: real)
    requires n >= 1
    ensures Mean(Add(New(n, z), v).history) == (v + Times(n - 1, z)) / (n as real)
  {
    assert [v][..0] == [];
    assert AddAll(New(n, z), [v]) == Add(New(n, z), v);
    MeanBeforeFull(n, z, [v]);
  }

  /** `SingleSample` with the `n - 1` zeros written as a product. */
  lemma SingleSampleProduct(n: int, z: real, v: real)
    requires n >= 1
    ensures Mean(Add(New(n, z), v).history) == (v + ((n - 1) as real) * z) / (n as real)
  {
    SingleSample(n, z, v);
    TimesInQuotient(Mean(Add(New(n, z), v).history), v, n - 1, z, n as real);
  }

  /** `n` copies of one sample fully displace the zero pre-fill. */
  lemma RepeatedSample(n: int, z: real, v: real)
    requires n >= 1
    ensures Mean(AddAll(New(n, z), Filled(n, v)).history) == v
  {
    MeanOfLastN(n, z, Filled(n, v));
    assert Filled(n, v)[0..] == Filled(n, v);
    MeanFilled(n, v);
  }

  /**
    Samples older than the last `n` have left the window: two input streams
    of the same length that agree on their last `n` samples leave a fresh
    averager in the same state.
   */
  lemma OldSamplesForgotten(n: int, z: real, vs: seq<real>, us: seq<real>)
    requires n >= 1 && |vs| == |us| >= n
    requires vs[|vs| - n..] == us[|us| - n..]
    ensures AddAll(New(n, z), vs) == AddAll(New(n, z), us)
  {
    FreshState(n, z, vs);
    FreshState(n, z, us);
    TailsAgree(n, z, vs, us);
  }

  lemma TailsAgree(n: int, z: real, vs: seq<real>, us: seq<real>)
    requires n >= 1 && |vs| == |us| >= n
    requires vs[|vs| - n..] == us[|us| - n..]
    ensures LastN(Filled(n, z) + vs, n) == LastN(Filled(n, z) + us, n)
  {
    LastNOfPrefilled(n, z, vs);
    LastNOfPrefilled(n, z, us);
  }

  /** The operations a caller can apply to a canonical averager. */
  datatype Op = AddOp(sample: real) | SetOp(value: real)

  function Run(a: Averager, ops: seq<Op>): (r: Averager)
    requires Valid(a)
    ensures Valid(r) && |r.history| == |a.history|
    decreases |ops|
  {
    if |ops| == 0 then a
    else
      var prev := Run(a, ops[..|ops| - 1]);
      match ops[|ops| - 1]
      case AddOp(v) => Add(prev, v)
      case SetOp(v) => Set(prev, v)
  }

  /**
    The first-insertion sentinel: the index is -1 after a run exactly when it
    was -1 before and the run added nothing (`Set` does not count as an
    insertion). Once any sample is added, the sentinel never comes back.
   */
  lemma {:induction false} SentinelUntilFirstAdd(a: Averager, ops: seq<Op>)
    requires Valid(a)
    ensures Run(a, ops).nextIndex == -1 <==>
              a.nextIndex == -1 && forall i :: 0 <= i < |ops| ==> ops[i].SetOp?
    decreases |ops|
  {
    if |ops| > 0 {
      var init := ops[..|ops| - 1];
      SentinelUntilFirstAdd(a, init);
      assert forall i :: 0 <= i < |init| ==> init[i] == ops[i];
    }
  }
}
