/**
  Arithmetic over a window of samples: the sum and mean that both averagers
  report, the seeded summation loop they run, the cyclic index arithmetic of
  a ring buffer, and the rotation that relates a ring buffer to the
  chronological order of the samples it holds.
 */
module Window {

  // ---------------------------------------------------------------------
  // Sums and means
  // ---------------------------------------------------------------------

  /** Sum of the samples, accumulated left to right as the averagers do. */
  function Sum(s: seq<real>): real
  {
    if |s| == 0 then 0.0 else Sum(s[..|s| - 1]) + s[|s| - 1]
  }

  /** Arithmetic mean: the sum divided by the number of samples. */
  function Mean(s: seq<real>): real
    requires |s| >= 1
  {
    Sum(s) / (|s| as real)
  }

  /**
    `k` copies of `z` added together, that is `k * z` (see `TimesIsProduct`);
    kept as repeated addition so that proofs about windows stay linear.
   */
  function Times(k: nat, z: real): real
  {
    if k == 0 then 0.0 else Times(k - 1, z) + z
  }

  lemma {:induction false} TimesIsProduct(k: nat, z: real)
    ensures Times(k, z) == (k as real) * z
  {
    if k > 0 {
      TimesIsProduct(k - 1, z);
    }
  }

  /** A window of `n` copies of `v`. */
  function Filled(n: nat, v: real): (s: seq<real>)
    ensures |s| == n
  {
    seq(n, _ => v)
  }

  lemma {:induction false} SumConcat(a: seq<real>, b: seq<real>)
    ensures Sum(a + b) == Sum(a) + Sum(b)
    decreases |b|
  {
    if |b| == 0 {
      assert a + b == a;
    } else {
      var b' := b[..|b| - 1];
      assert (a + b)[..|a + b| - 1] == a + b';
      SumConcat(a, b');
    }
  }

  lemma {:induction false} SumFilled(n: nat, v: real)
    ensures Sum(Filled(n, v)) == Times(n, v)
  {
    if n > 0 {
      assert Filled(n, v)[..n - 1] == Filled(n - 1, v);
      SumFilled(n - 1, v);
    }
  }

  /** A window holding one value throughout has that value as its mean. */
  lemma MeanFilled(n: nat, v: real)
    requires n >= 1
    ensures Mean(Filled(n, v)) == v
  {
    SumFilled(n, v);
    TimesIsProduct(n, v);
  }

  /**
    The mean of a window of `n` slots made of `n - |vs|` copies of `z`
    followed by `vs`: the total of `vs` plus `n - |vs|` times `z`, over `n`.
   */
  lemma MeanPadded(n: nat, z: real, vs: seq<real>)
    requires 1 <= n && |vs| <= n
    ensures Mean(Filled(n - |vs|, z) + vs) == (Sum(vs) + Times(n - |vs|, z)) / (n as real)
  {
    SumFilled(n - |vs|, z);
    SumConcat(Filled(n - |vs|, z), vs);
  }

  /** `Times` may be replaced by the product inside a quotient. */
  lemma TimesInQuotient(m: real, a: real, k: nat, z: real, d: real)
    requires d > 0.0 && m == (a + Times(k, z)) / d
    ensures m == (a + (k as real) * z) / d
  {
    TimesIsProduct(k, z);
  }

  /** Dividing a sum is summing the quotients. */
  lemma DivAdd(a: real, b: real, d: real)
    requires d > 0.0
    ensures (a + b) / d == a / d + b / d
  {
  }

  /** Overwriting one slot changes the sum by the difference of the two values. */
  lemma SumUpdate(s: seq<real>, i: nat, v: real)
    requires i < |s|
    ensures Sum(s[i := v]) == Sum(s) - s[i] + v
  {
    assert s == s[..i] + [s[i]] + s[i + 1..];
    assert s[i := v] == s[..i] + [v] + s[i + 1..];
    SumConcat(s[..i] + [s[i]], s[i + 1..]);
    SumConcat(s[..i] + [v], s[i + 1..]);
    SumConcat(s[..i], [s[i]]);
    SumConcat(s[..i], [v]);
    assert Sum([s[i]]) == s[i] by { assert [s[i]][..0] == []; }
    assert Sum([v]) == v by { assert [v][..0] == []; }
  }

  /**
    The summation loop of both averagers: the running total starts at the
    zero value `seed`, is replaced by the first sample, and then accumulates
    every later sample. On a non-empty window the seed therefore plays no
    part in the result.
   */
  method SeededSum(s: seq<real>, seed: real) returns (sum: real)
    ensures |s| >= 1 ==> sum == Sum(s)
    ensures |s| == 0 ==> sum == seed
  {
    sum := seed;
    var i := 0;
    while i < |s|
      invariant 0 <= i <= |s|
      invariant i == 0 ==> sum == seed
      invariant i >= 1 ==> sum == Sum(s[..i])
    {
      if i == 0 {
        sum := s[i];
        assert s[..1][..0] == [];
      } else {
        sum := sum + s[i];
        assert s[..i + 1][..i] == s[..i];
      }
      i := i + 1;
    }
    assert s[..|s|] == s;
  }

  // ---------------------------------------------------------------------
  // Cyclic indices
  // ---------------------------------------------------------------------

  /** Advancing a cyclic index once more commutes with reducing it. */
  lemma ModStep(k: int, n: int)
    requires n >= 1
    ensures (k % n + 1) % n == (k + 1) % n
  {
    var q, r := k / n, k % n;
    assert k == q * n + r;
    if r + 1 < n {
      ModUnique(k + 1, n, q, r + 1);
      ModUnique(r + 1, n, 0, r + 1);
    } else {
      assert k + 1 == (q + 1) * n + 0;
      ModUnique(k + 1, n, q + 1, 0);
      ModUnique(r + 1, n, 1, 0);
    }
  }

  lemma ModUnique(x: int, n: int, q: int, r: int)
    requires n >= 1 && 0 <= r < n && x == q * n + r
    ensures x % n == r
  {
    var q', r' := x / n, x % n;
    assert x == q' * n + r';
    var d := q - q';
    assert d * n == q * n - q' * n;
    assert d * n == r' - r;
    if d >= 1 {
      assert d * n >= n by { MulAtLeast(d, n); }
    } else if d <= -1 {
      assert (-d) * n >= n by { MulAtLeast(-d, n); }
    }
  }

  lemma MulAtLeast(d: int, n: int)
    requires d >= 1 && n >= 1
    ensures d * n >= n
  {
    assert d * n == (d - 1) * n + n;
  }

  // ---------------------------------------------------------------------
  // Ring-buffer layout of a chronological window
  // ---------------------------------------------------------------------

  /** The `n` most recent samples of `s`. */
  function LastN(s: seq<real>, n: nat): (w: seq<real>)
    requires n <= |s|
    ensures |w| == n
  {
    s[|s| - n..]
  }

  /** Appending one sample shifts the most recent `n` by one. */
  lemma LastNAppend(s: seq<real>, v: real, n: nat)
    requires 1 <= n <= |s|
    ensures LastN(s + [v], n) == LastN(s, n)[1..] + [v]
  {
  }

  /**
    The most recent `n` samples of a stream that starts with `n` copies of
    `z`: the tail of the pre-fill followed by all of `vs` while `vs` is short,
    the last `n` of `vs` otherwise.
   */
  lemma LastNOfPrefilled(n: nat, z: real, vs: seq<real>)
    ensures |vs| <= n ==> LastN(Filled(n, z) + vs, n) == Filled(n - |vs|, z) + vs
    ensures |vs| >= n ==> LastN(Filled(n, z) + vs, n) == vs[|vs| - n..]
  {
  }

  /**
    Ring-buffer layout of a chronological window `w` whose oldest sample sits
    in slot `p`: slots `0..p` hold the newest `p` samples, slots `p..` hold the
    oldest ones.
   */
  function Rotate(w: seq<real>, p: nat): (r: seq<real>)
    requires p <= |w|
    ensures |r| == |w|
  {
    w[|w| - p..] + w[..|w| - p]
  }

  /** The ring-buffer layout of a window holds the same total. */
  lemma SumRotate(w: seq<real>, p: nat)
    requires p <= |w|
    ensures Sum(Rotate(w, p)) == Sum(w)
  {
    var k := |w| - p;
    SumConcat(w[k..], w[..k]);
    SumConcat(w[..k], w[k..]);
    assert w[..k] + w[k..] == w;
  }

  /**
    Shifting the chronological window by one new sample `v` is the same as
    overwriting the ring-buffer slot of the oldest sample with `v`.
   */
  lemma RotateShift(w: seq<real>, p: nat, v: real)
    requires p < |w|
    ensures Rotate(w[1..] + [v], (p + 1) % |w|) == Rotate(w, p)[p := v]
  {
    if p + 1 < |w| {
      assert (p + 1) % |w| == p + 1 by { ModUnique(p + 1, |w|, 0, p + 1); }
      RotateShiftInner(w, p, v);
    } else {
      assert (p + 1) % |w| == 0 by { ModUnique(p + 1, |w|, 1, 0); }
      RotateShiftWrap(w, v);
    }
  }

  lemma RotateShiftInner(w: seq<real>, p: nat, v: real)
    requires p + 1 < |w|
    ensures Rotate(w[1..] + [v], p + 1) == Rotate(w, p)[p := v]
  {
    var w' := w[1..] + [v];
    assert w'[|w| - 1] == v;
    assert forall i :: 0 <= i < |w| - 1 ==> w'[i] == w[i + 1];
  }

  lemma RotateShiftWrap(w: seq<real>, v: real)
    requires |w| >= 1
    ensures Rotate(w[1..] + [v], 0) == Rotate(w, |w| - 1)[|w| - 1 := v]
  {
    var w' := w[1..] + [v];
    assert w'[|w| - 1] == v;
    assert forall i :: 0 <= i < |w| - 1 ==> w'[i] == w[i + 1];
  }
}
