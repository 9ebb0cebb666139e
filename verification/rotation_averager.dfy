/**
  The rotation averager: a canonical averager of angles with zero value 0
  whose `Add` first unwraps the incoming angle against the most recently
  stored one, so that the linear mean is not torn apart where the angle
  wraps around (-180/180 degrees, -pi/pi radians).

  Source/RotationAverager.cs is the degree version (half turn 180, full
  turn 360); AverageBuddy/AverageBuddy.SharedProject/RotationAverager.cs is
  the radian version (half turn pi, full turn 2 pi). Both are modelled by
  one definition parameterised by the unit fixed at construction.
 */
module RotationAverager {
  import opened Window
  import Averager

  /** `Math.PI`: the IEEE double nearest to pi, as an exact rational. */
  const MathPi: real := 884279719003555.0 / 281474976710656.0

  lemma MathPiBounds()
    ensures 3.14159 < MathPi < 3.14160
  {
  }

  datatype AngleUnit = Degrees | Radians

  /** The unwrap threshold of a unit; a full turn is twice this. */
  function HalfTurn(u: AngleUnit): (t: real)
    ensures t > 0.0
  {
    match u
    case Degrees => 180.0
    case Radians => MathPi
  }

  function Abs(x: real): real
  {
    if x < 0.0 then -x else x
  }

  /**
    The representation of the angle `v` stored after `prev`: shifted by one
    full turn `2 t` towards `prev` when it lies more than `t` away, and left
    alone otherwise. At most one turn is ever added or removed.
   */
  function Unwrap(prev: real, v: real, t: real): (s: real)
    requires t > 0.0
    ensures s == v || s == v + 2.0 * t || s == v - 2.0 * t
    ensures prev - v > t ==> s == v + 2.0 * t
    ensures prev - v < -t ==> s == v - 2.0 * t
    ensures -t <= prev - v <= t ==> s == v
    ensures Abs(prev - v) <= 3.0 * t ==> Abs(prev - s) <= t
  {
    if prev - v > t then v + 2.0 * t
    else if prev - v < -t then v - 2.0 * t
    else v
  }

  /**
    Among the representations of `v` one turn apart, `Unwrap` picks one
    closest to `prev`, and it leaves `v` alone exactly when `v` already lies
    within `t` of `prev`.
   */
  lemma UnwrapNearest(prev: real, v: real, t: real)
    requires t > 0.0
    ensures Abs(prev - Unwrap(prev, v, t)) <= Abs(prev - v)
    ensures Abs(prev - Unwrap(prev, v, t)) <= Abs(prev - (v + 2.0 * t))
    ensures Abs(prev - Unwrap(prev, v, t)) <= Abs(prev - (v - 2.0 * t))
    ensures Unwrap(prev, v, t) == v <==> Abs(prev - v) <= t
  {
  }

  /**
    The correction is applied once, not iterated: an unwrapped angle is left
    alone by a second unwrap when the input was at most three half turns from
    `prev`, and stays more than a half turn away when it was farther.
   */
  lemma UnwrapOnce(prev: real, v: real, t: real)
    requires t > 0.0
    ensures Abs(prev - v) <= 3.0 * t ==> Unwrap(prev, Unwrap(prev, v, t), t) == Unwrap(prev, v, t)
    ensures Abs(prev - v) > 3.0 * t ==> Abs(prev - Unwrap(prev, v, t)) > t
  {
  }

  /** A rotation averager: the unit it was built for and its base averager. */
  datatype RotationAverager = RotationAverager(unit: AngleUnit, base: Averager.Averager)

  /** The constructor: a base averager of `sampleSize` slots with zero value 0. */
  function New(unit: AngleUnit, sampleSize: int): (r: RotationAverager)
    ensures r.unit == unit
    ensures |r.base.history| == if sampleSize > 0 then sampleSize else 0
    ensures forall i :: 0 <= i < |r.base.history| ==> r.base.history[i] == 0.0
    ensures r.base.nextIndex == -1 && r.base.zero == 0.0
  {
    RotationAverager(unit, Averager.New(sampleSize, 0.0))
  }

  /** The value the base window will hold in its newest slot after `Add(r, v)`. */
  function StoredValue(r: RotationAverager, v: real): real
    requires Averager.Valid(r.base)
  {
    if -1 < r.base.nextIndex then
      Unwrap(r.base.history[r.base.nextIndex], v, HalfTurn(r.unit))
    else
      v
  }

  /**
    The overriding `Add`. Unless this is the first insertion (index still at
    the sentinel), the new angle is unwrapped against `history[nextIndex]`,
    the most recently written (or `Set`) slot; then the base `Add` stores it.
   */
  function Add(r: RotationAverager, v: real): (r': RotationAverager)
    requires Averager.Valid(r.base)
    ensures r'.unit == r.unit
    ensures Averager.Valid(r'.base) && 0 <= r'.base.nextIndex
    ensures r'.base == Averager.Add(r.base, r'.base.history[r'.base.nextIndex])
    ensures r.base.nextIndex == -1 ==> r'.base.history[r'.base.nextIndex] == v
    ensures r.base.nextIndex >= 0 ==>
              var prev := r.base.history[r.base.nextIndex];
              var s := r'.base.history[r'.base.nextIndex];
              && (s == v || s == v + 2.0 * HalfTurn(r.unit) || s == v - 2.0 * HalfTurn(r.unit))
              && (prev - v > HalfTurn(r.unit) ==> s == v + 2.0 * HalfTurn(r.unit))
              && (prev - v < -HalfTurn(r.unit) ==> s == v - 2.0 * HalfTurn(r.unit))
              && (-HalfTurn(r.unit) <= prev - v <= HalfTurn(r.unit) ==> s == v)
              && (Abs(prev - v) <= 3.0 * HalfTurn(r.unit) ==> Abs(prev - s) <= HalfTurn(r.unit))
  {
    r.(base := Averager.Add(r.base, StoredValue(r, v)))
  }

  /**
    `Update` on a rotation averager: the base `Update` dispatches to the
    overriding `Add`, then reports the plain mean of the unwrapped window,
    which moves by the difference between the stored (unwrapped) angle and
    the one it evicts.
   */
  method Update(r: RotationAverager, v: real) returns (r': RotationAverager, avg: real)
    requires Averager.Valid(r.base)
    ensures r' == Add(r, v)
    ensures avg == Mean(r'.base.history)
    ensures var i := r'.base.nextIndex;
            avg == Mean(r.base.history) + (r'.base.history[i] - r.base.history[i]) / (|r.base.history| as real)
  {
    r' := Add(r, v);
    avg := Averager.Average(r'.base);
    var h, i, st := r.base.history, r'.base.nextIndex, StoredValue(r, v);
    assert r'.base.history == h[i := st];
    SumUpdate(h, i, st);
    DivAdd(Sum(h), st - h[i], |h| as real);
  }

  /** Degree mode: the 180 / 360 unwrap of Source/RotationAverager.cs. */
  lemma DegreesAdd(r: RotationAverager, v: real)
    requires r.unit == Degrees && Averager.Valid(r.base) && r.base.nextIndex >= 0
    ensures var prev := r.base.history[r.base.nextIndex];
            var r' := Add(r, v);
            var s := r'.base.history[r'.base.nextIndex];
            && (prev - v > 180.0 ==> s == v + 360.0)
            && (prev - v < -180.0 ==> s == v - 360.0)
            && (-180.0 <= prev - v <= 180.0 ==> s == v)
  {
  }

  /** Radian mode: the pi / 2 pi unwrap of the shared-project RotationAverager.cs. */
  lemma RadiansAdd(r: RotationAverager, v: real)
    requires r.unit == Radians && Averager.Valid(r.base) && r.base.nextIndex >= 0
    ensures var prev := r.base.history[r.base.nextIndex];
            var r' := Add(r, v);
            var s := r'.base.history[r'.base.nextIndex];
            && (prev - v > MathPi ==> s == v + 2.0 * MathPi)
            && (prev - v < -MathPi ==> s == v - 2.0 * MathPi)
            && (-MathPi <= prev - v <= MathPi ==> s == v)
  {
  }

  /**
    `Set` does not arm the unwrap: on a fresh averager the index is still at
    the sentinel after `Set(w)`, so the next angle is stored as given however
    far it lies from `w`.
   */
  lemma SetKeepsFirstInsertion(u: AngleUnit, n: int, w: real, v: real)
    requires n >= 1
    ensures var r := RotationAverager(u, Averager.Set(New(u, n).base, w));
            var r' := Add(r, v);
            r'.base.history[r'.base.nextIndex] == v
  {
  }

  /**
    Across the wrap: 179 degrees then -179 degrees into a fresh two-slot
    averager store 179 and 181, whose mean is 180 rather than 0.
   */
  lemma DegreesWrapExample()
    ensures Add(Add(New(Degrees, 2), 179.0), -179.0).base.history == [179.0, 181.0]
    ensures Mean(Add(Add(New(Degrees, 2), 179.0), -179.0).base.history) == 180.0
  {
    var r := Add(Add(New(Degrees, 2), 179.0), -179.0);
    assert r.base.history == [179.0, 181.0];
    assert [179.0, 181.0][..1] == [179.0];
    assert [179.0][..0] == [];
  }

  /**
    The radian counterpart: 3 then -3 radians store 3 and 2 pi - 3, whose
    mean is pi rather than 0.
   */
  lemma RadiansWrapExample()
    ensures Add(Add(New(Radians, 2), 3.0), -3.0).base.history == [3.0, 2.0 * MathPi - 3.0]
    ensures Mean(Add(Add(New(Radians, 2), 3.0), -3.0).base.history) == MathPi
  {
    var r := Add(Add(New(Radians, 2), 3.0), -3.0);
    assert r.base.history == [3.0, 2.0 * MathPi - 3.0];
    assert [3.0, 2.0 * MathPi - 3.0][..1] == [3.0];
    assert [3.0][..0] == [];
  }
}
