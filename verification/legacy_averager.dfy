/**
  The older averager (Source/Averager.cs), instantiated at exact reals.

  It writes at `next` first and advances it afterwards, starts `next` at 0
  rather than at a sentinel, has no `Set`, and divides the total by the
  length of the history. The refinement lemmas at the end show that it
  keeps exactly the history the canonical averager keeps.
 */
module LegacyAverager {
  import opened Window
  import Averager

  datatype LegacyAverager = LegacyAverager(history: seq<real>, next: int, zero: real)

  /** A usable averager: a non-empty window and a write index inside it. */
  ghost predicate Valid(a: LegacyAverager)
  {
    1 <= |a.history| && 0 <= a.next < |a.history|
  }

  /**
    The constructor: `sampleSize` copies of the zero value and the write
    index at slot 0. A non-positive sample size yields an empty window, which
    no `Add` can write into.
   */
  function New(sampleSize: int, zero: real): (a: LegacyAverager)
    ensures |a.history| == if sampleSize > 0 then sampleSize else 0
    ensures forall i :: 0 <= i < |a.history| ==> a.history[i] == zero
    ensures a.next == 0 && a.zero == zero
    ensures Valid(a) <==> sampleSize >= 1
  {
    LegacyAverager(Filled(if sampleSize > 0 then sampleSize else 0, zero), 0, zero)
  }

  /**
    Add a sample: write it at the current index, then advance the index
    cyclically. Exactly the old index's slot changes.
   */
  function Add(a: LegacyAverager, v: real): (r: LegacyAverager)
    requires Valid(a)
    ensures Valid(r)
    ensures a.next + 1 < |a.history| ==> r.next == a.next + 1
    ensures a.next + 1 == |a.history| ==> r.next == 0
    ensures |r.history| == |a.history| && r.zero == a.zero
    ensures r.history[a.next] == v
    ensures forall i :: 0 <= i < |a.history| && i != a.next ==> r.history[i] == a.history[i]
  {
    var next := if a.next + 1 >= |a.history| then 0 else a.next + 1;
    LegacyAverager(a.history[a.next := v], next, a.zero)
  }

  /** `Add` advances the write index cyclically: one past the old one, mod `MaxSize`. */
  lemma AddAdvances(a: LegacyAverager, v: real)
    requires Valid(a)
    ensures Add(a, v).next == (a.next + 1) % |a.history|
  {
    var i, n := a.next, |a.history|;
    if i + 1 < n {
      ModUnique(i + 1, n, 0, i + 1);
    } else {
      ModUnique(i + 1, n, 1, 0);
    }
  }

  /**
    The mean of the whole window: the seeded sum of every slot divided by the
    number of slots, independent of the zero value.
   */
  method Average(a: LegacyAverager) returns (avg: real)
    requires |a.history| >= 1
    ensures avg == Sum(a.history) / (|a.history| as real)
  {
    var sum := SeededSum(a.history, a.zero);
    avg := sum / (|a.history| as real);
  }

  /**
    Add a sample and report the new mean, which moves by the difference
    between the new sample and the one it evicts.
   */
  method Update(a: LegacyAverager, v: real) returns (r: LegacyAverager, avg: real)
    requires Valid(a)
    ensures r == Add(a, v)
    ensures avg == Mean(r.history)
    ensures avg == Mean(a.history) + (v - a.history[a.next]) / (|a.history| as real)
  {
    r := Add(a, v);
    avg := Average(r);
    SumUpdate(a.history, a.next, v);
  }

  /** Add the samples `vs` one after another, oldest first. */
  function AddAll(a: LegacyAverager, vs: seq<real>): (r: LegacyAverager)
    requires Valid(a)
    ensures Valid(r) && |r.history| == |a.history| && r.zero == a.zero
    ensures |vs| == 0 ==> r == a
    decreases |vs|
  {
    if |vs| == 0 then a
    else Add(AddAll(a, vs[..|vs| - 1]), vs[|vs| - 1])
  }

  /**
    The abstraction relating the two index schemes: the same window, and the
    legacy write index equal to the slot the canonical averager writes next.
   */
  ghost predicate Corresponds(c: Averager.Averager, l: LegacyAverager)
  {
    && Averager.Valid(c) && Valid(l)
    && c.history == l.history && c.zero == l.zero
    && l.next == Averager.NextSlot(c)
  }

  /** Both constructors produce corresponding states. */
  lemma NewCorresponds(n: int, z: real)
    requires n >= 1
    ensures Corresponds(Averager.New(n, z), New(n, z))
  {
  }

  /**
    Write-then-advance and advance-then-write put each sample in the same
    slot: one `Add` on each side preserves the correspondence.
   */
  lemma AddCorresponds(c: Averager.Averager, l: LegacyAverager, v: real)
    requires Corresponds(c, l)
    ensures Corresponds(Averager.Add(c, v), Add(l, v))
  {
    var c', l' := Averager.Add(c, v), Add(l, v);
    assert c'.nextIndex == l.next;
    assert c'.history == l'.history;
    assert l'.next == Averager.NextSlot(c');
  }

  /**
    For every input sequence, the two averagers started fresh with the same
    capacity and zero value hold the same history, and hence report the
    same average.
   */
  lemma {:induction false} SameHistory(n: int, z: real, vs: seq<real>)
    requires n >= 1
    ensures Corresponds(Averager.AddAll(Averager.New(n, z), vs), AddAll(New(n, z), vs))
    ensures AddAll(New(n, z), vs).history == Averager.AddAll(Averager.New(n, z), vs).history
    decreases |vs|
  {
    if |vs| == 0 {
      NewCorresponds(n, z);
    } else {
      var init := vs[..|vs| - 1];
      SameHistory(n, z, init);
      AddCorresponds(Averager.AddAll(Averager.New(n, z), init), AddAll(New(n, z), init), vs[|vs| - 1]);
    }
  }

  /** The k-th `Add` from fresh writes slot `(k - 1) mod n`; the index is then `k mod n`. */
  lemma {:induction false} FreshNext(n: int, z: real, vs: seq<real>)
    requires n >= 1
    ensures AddAll(New(n, z), vs).next == |vs| % n
    decreases |vs|
  {
    if |vs| > 0 {
      var k := |vs| - 1;
      var prev := AddAll(New(n, z), vs[..k]);
      FreshNext(n, z, vs[..k]);
      assert |prev.history| == n;
      assert AddAll(New(n, z), vs) == Add(prev, vs[k]);
      AddAdvances(prev, vs[k]);
      ModStep(k, n);
    }
  }

  /**
    Once at least `n` samples have been added to a fresh averager, the mean
    is the mean of the last `n` samples, as the source's documentation of
    `Update` promises.
   */
  lemma MeanOfLastN(n: int, z: real, vs: seq<real>)
    requires n >= 1 && |vs| >= n
    ensures Mean(AddAll(New(n, z), vs).history) == Mean(vs[|vs| - n..])
  {
    SameHistory(n, z, vs);
    Averager.MeanOfLastN(n, z, vs);
  }
}
