/** The decoder's inverse cosine transform over the reals: it undoes the encoder's. */
module JpegIdct {
  import opened JpegDct

  function Scale(u: nat): real { if u == 0 then 0.70710678118 else 1.0 }

  /** The first `n` frequencies of eight at place `x`. */
  function Mix(g: Eight, x: nat, n: nat): real
    requires x < 8 && n <= 8
  {
    if n == 0 then 0.0 else Mix(g, x, n - 1) + Times(Times(Scale(n - 1), g[n - 1]), Cos(n - 1, x))
  }

  /** The value eight frequencies have at place `x`. */
  function Value(g: Eight, x: nat): real
    requires x < 8
  {
    Times(Mix(g, x, 8), 0.5)
  }

  // ----- one dimension: Value undoes Freq -----

  /** The weight that the sum of frequency `u` has at place `x`. */
  function Weight(u: nat, x: nat): real
    requires u < 8 && x < 8
  {
    Times(Times(Scale(u), Norm(u)), Cos(u, x))
  }

  /** How much of place `z` comes back at place `x`, by the first `n` frequencies, twice. */
  function Dot(x: nat, z: nat, n: nat): real
    requires x < 8 && z < 8 && n <= 8
  {
    if n == 0 then 0.0 else Dot(x, z, n - 1) + Times(Weight(n - 1, x), Cos(n - 1, z))
  }

  const TINY := 0.000000001

  function Same(x: nat, z: nat): real { if x == z then 2.0 else 0.0 }

  /** The cosines are orthogonal but for the rounding of the tables. */
  lemma Orthogonal(x: nat, z: nat)
    requires x < 8 && z < 8
    ensures -TINY <= Dot(x, z, 8) - Same(x, z) <= TINY
  {
    hide Cos, Weight, Times;
    assert Dot(x, z, 1) == Times(Weight(0, x), Cos(0, z));
    assert Dot(x, z, 2) == Dot(x, z, 1) + Times(Weight(1, x), Cos(1, z));
    assert Dot(x, z, 3) == Dot(x, z, 2) + Times(Weight(2, x), Cos(2, z));
    assert Dot(x, z, 4) == Dot(x, z, 3) + Times(Weight(3, x), Cos(3, z));
    assert Dot(x, z, 5) == Dot(x, z, 4) + Times(Weight(4, x), Cos(4, z));
    assert Dot(x, z, 6) == Dot(x, z, 5) + Times(Weight(5, x), Cos(5, z));
    assert Dot(x, z, 7) == Dot(x, z, 6) + Times(Weight(6, x), Cos(6, z));
    assert Dot(x, z, 8) == Terms(x, z);
    if x < 2 {
      Terms01(x, z);
    } else if x < 4 {
      Terms23(x, z);
    } else if x < 6 {
      Terms45(x, z);
    } else {
      Terms67(x, z);
    }
  }

  function Terms(x: nat, z: nat): real
    requires x < 8 && z < 8
  {
    Times(Weight(0, x), Cos(0, z)) + Times(Weight(1, x), Cos(1, z)) + Times(Weight(2, x), Cos(2, z))
    + Times(Weight(3, x), Cos(3, z)) + Times(Weight(4, x), Cos(4, z)) + Times(Weight(5, x), Cos(5, z))
    + Times(Weight(6, x), Cos(6, z)) + Times(Weight(7, x), Cos(7, z))
  }

  lemma Terms01(x: nat, z: nat)
    requires 0 <= x < 2 && z < 8
    ensures -TINY <= Terms(x, z) - Same(x, z) <= TINY
  {
  }

  lemma Terms23(x: nat, z: nat)
    requires 2 <= x < 4 && z < 8
    ensures -TINY <= Terms(x, z) - Same(x, z) <= TINY
  {
  }

  lemma Terms45(x: nat, z: nat)
    requires 4 <= x < 6 && z < 8
    ensures -TINY <= Terms(x, z) - Same(x, z) <= TINY
  {
  }

  lemma Terms67(x: nat, z: nat)
    requires 6 <= x < 8 && z < 8
    ensures -TINY <= Terms(x, z) - Same(x, z) <= TINY
  {
  }

  /** What comes back at place `x` of the first `k` places, by the first `n` frequencies. */
  function Back(f: Eight, x: nat, n: nat, k: nat): real
    requires x < 8 && n <= 8 && k <= 8
  {
    if k == 0 then 0.0 else Back(f, x, n, k - 1) + Times(f[k - 1], Dot(x, k - 1, n))
  }

  lemma {:induction false} BackNone(f: Eight, x: nat, k: nat)
    requires x < 8 && k <= 8
    ensures Back(f, x, 0, k) == 0.0
  {
    if k > 0 {
      BackNone(f, x, k - 1);
    }
  }

  lemma Exchange(w: real, s: real, f: real, c: real)
    ensures Times(w, s + Times(f, c)) == Times(w, s) + Times(f, Times(w, c))
  {
  }

  /** One more frequency. */
  lemma {:induction false} BackNext(f: Eight, x: nat, n: nat, k: nat)
    requires x < 8 && n < 8 && k <= 8
    ensures Back(f, x, n + 1, k) == Back(f, x, n, k) + Times(Weight(n, x), Sum(f, n, k))
  {
    hide Cos, Weight;
    if k > 0 {
      hide Times;
      BackNext(f, x, n, k - 1);
      Exchange(Weight(n, x), Sum(f, n, k - 1), f[k - 1], Cos(n, k - 1));
      Distribute(f[k - 1], Dot(x, k - 1, n), Times(Weight(n, x), Cos(n, k - 1)));
    }
  }

  lemma Regroup(s: real, t: real, n: real, c: real)
    ensures Times(Times(s, Times(t, n)), c) == Times(Times(Times(s, n), c), t)
  {
  }

  /** The frequencies of `f`. */
  function Freqs(f: Eight): (g: Eight)
    ensures forall u :: 0 <= u < 8 ==> g[u] == Freq(f, u)
  {
    seq(8, u requires 0 <= u < 8 => Freq(f, u))
  }

  lemma {:induction false} MixIsBack(f: Eight, x: nat, n: nat)
    requires x < 8 && n <= 8
    ensures Mix(Freqs(f), x, n) == Back(f, x, n, 8)
  {
    if n == 0 {
      BackNone(f, x, 8);
    } else {
      var u := n - 1;
      MixIsBack(f, x, u);
      BackNext(f, x, u, 8);
      assert Freqs(f)[u] == Times(Sum(f, u, 8), Norm(u));
      Regroup(Scale(u), Sum(f, u, 8), Norm(u), Cos(u, x));
    }
  }

  lemma Commute(a: real, b: real)
    ensures Times(a, b) == Times(b, a)
  {
  }

  lemma NearTimes(f: real, d: real, e: real, m: real)
    requires -m <= f <= m && -TINY <= d - e <= TINY
    ensures -Times(TINY, m) <= Times(f, d) - Times(f, e) <= Times(TINY, m)
  {
    Product(d, f, e, TINY);
    Monotone(TINY, Abs(f), m);
    hide Times;
    Commute(f, d);
    Commute(f, e);
  }

  /** `k` times `e`, added up. */
  function Sums(k: nat, e: real): real {
    if k == 0 then 0.0 else Sums(k - 1, e) + e
  }

  lemma EightSums(e: real)
    ensures Sums(8, e) == 8.0 * e
  {
    assert Sums(1, e) == e && Sums(2, e) == 2.0 * e && Sums(3, e) == 3.0 * e && Sums(4, e) == 4.0 * e;
    assert Sums(5, e) == 5.0 * e && Sums(6, e) == 6.0 * e && Sums(7, e) == 7.0 * e;
  }

  lemma {:induction false} BackNear(f: Eight, x: nat, k: nat, m: real)
    requires x < 8 && k <= 8 && forall z :: 0 <= z < 8 ==> -m <= f[z] <= m
    ensures var want := if x < k then 2.0 * f[x] else 0.0;
            -Sums(k, Times(TINY, m)) <= Back(f, x, 8, k) - want <= Sums(k, Times(TINY, m))
  {
    hide Dot;
    if k > 0 {
      var z := k - 1;
      BackNear(f, x, z, m);
      Orthogonal(x, z);
      NearTimes(f[z], Dot(x, z, 8), Same(x, z), m);
      assert Times(f[z], Same(x, z)) == if x == z then 2.0 * f[x] else 0.0;
      hide Times;
    }
  }

  /** The inverse of the frequencies of eight values is those values, within a rounding error. */
  lemma ValueNear(f: Eight, x: nat, m: real)
    requires x < 8 && forall z :: 0 <= z < 8 ==> -m <= f[z] <= m
    ensures -4.0 * TINY * m <= Value(Freqs(f), x) - f[x] <= 4.0 * TINY * m
  {
    hide Mix, Back, Sums;
    MixIsBack(f, x, 8);
    BackNear(f, x, 8, m);
    EightSums(Times(TINY, m));
  }

  // ----- two dimensions -----

  /** The values at place `x` of all rows. */
  function Spot(d: seq<real>, x: nat): (f: Eight)
    requires |d| == 64 && x < 8
    ensures forall v :: 0 <= v < 8 ==> f[v] == Value(Row(d, v), x)
  {
    seq(8, v requires 0 <= v < 8 => Value(Row(d, v), x))
  }

  /** The inverse transform of an 8x8 block of coefficients. */
  function Inverse(d: seq<real>): (b: seq<real>)
    requires |d| == 64
    ensures |b| == 64 && forall y, x :: 0 <= y < 8 && 0 <= x < 8 ==> b[y * 8 + x] == Value(Spot(d, x), y)
  {
    seq(64, i requires 0 <= i < 64 => Value(Spot(d, i % 8), i / 8))
  }

  method InverseRows(d: array<real>) returns (tmp: array<real>)
    requires d.Length == 64
    ensures fresh(tmp) && tmp.Length == 64
    ensures forall y, x :: 0 <= y < 8 && 0 <= x < 8 ==> tmp[y * 8 + x] == Value(Row(d[..], y), x)
  {
    hide Times, COS;
    tmp := new real[64];
    for y := 0 to 8
      invariant forall j, k :: 0 <= j < y && 0 <= k < 8 ==> tmp[j * 8 + k] == Value(Row(d[..], j), k)
    {
      ghost var g := Row(d[..], y);
      for x := 0 to 8
        invariant forall j, k :: 0 <= j < y && 0 <= k < 8 ==> tmp[j * 8 + k] == Value(Row(d[..], j), k)
        invariant forall k :: 0 <= k < x ==> tmp[y * 8 + k] == Value(g, k)
      {
        var s := 0.0;
        for u := 0 to 8
          invariant s == Mix(g, x, u)
        {
          assert g[u] == d[y * 8 + u];
          s := s + Times(Times(Scale(u), d[y * 8 + u]), Cos(u, x));
        }
        tmp[y * 8 + x] := Times(s, 0.5);
      }
    }
  }

  method InverseColumns(tmp: array<real>, ghost d: seq<real>) returns (b: array<real>)
    requires tmp.Length == 64 && |d| == 64
    requires forall y, x :: 0 <= y < 8 && 0 <= x < 8 ==> tmp[y * 8 + x] == Value(Row(d, y), x)
    ensures fresh(b) && b.Length == 64
    ensures forall y, x :: 0 <= y < 8 && 0 <= x < 8 ==> b[y * 8 + x] == Value(Spot(d, x), y)
  {
    hide Times, COS;
    b := new real[64];
    for x := 0 to 8
      invariant forall j, k :: 0 <= j < 8 && 0 <= k < x ==> b[j * 8 + k] == Value(Spot(d, k), j)
    {
      ghost var g := Spot(d, x);
      for y := 0 to 8
        invariant forall j, k :: 0 <= j < 8 && 0 <= k < x ==> b[j * 8 + k] == Value(Spot(d, k), j)
        invariant forall j :: 0 <= j < y ==> b[j * 8 + x] == Value(g, j)
      {
        var s := 0.0;
        for v := 0 to 8
          invariant s == Mix(g, y, v)
        {
          assert g[v] == tmp[v * 8 + x];
          s := s + Times(Times(Scale(v), tmp[v * 8 + x]), Cos(v, y));
        }
        b[y * 8 + x] := Times(s, 0.5);
      }
    }
  }

  method Idct(d: array<real>) returns (b: array<real>)
    requires d.Length == 64
    ensures fresh(b) && b.Length == 64 && b[..] == Inverse(d[..])
  {
    hide Value;
    var tmp := InverseRows(d);
    b := InverseColumns(tmp, d[..]);
    forall i | 0 <= i < 64
      ensures b[i] == Inverse(d[..])[i]
    {
      assert i == i / 8 * 8 + i % 8;
      assert b[i / 8 * 8 + i % 8] == Value(Spot(d[..], i % 8), i / 8);
    }
  }

  // ----- the inverse undoes the transform -----

  lemma {:induction false} SumLinear(f: Eight, g: Eight, h: Eight, k: real, u: nat, n: nat)
    requires u < 8 && n <= 8 && forall i :: 0 <= i < 8 ==> h[i] == f[i] + Times(k, g[i])
    ensures Sum(h, u, n) == Sum(f, u, n) + Times(k, Sum(g, u, n))
  {
    if n > 0 {
      var i := n - 1;
      SumLinear(f, g, h, k, u, i);
      AddTimes(f[i], k, g[i], Cos(u, i));
      hide Times;
      Distribute(k, Sum(g, u, i), Times(g[i], Cos(u, i)));
    }
  }

  lemma AddTimes(f: real, k: real, g: real, c: real)
    ensures Times(f + Times(k, g), c) == Times(f, c) + Times(k, Times(g, c))
  {
  }

  /** What the first `n` frequencies of the rows of `b` give at place `x`. */
  function Mixes(b: seq<real>, x: nat, n: nat): (f: Eight)
    requires |b| == 64 && x < 8 && n <= 8
    ensures forall y :: 0 <= y < 8 ==> f[y] == Mix(Freqs(Row(b, y)), x, n)
  {
    seq(8, y requires 0 <= y < 8 => Mix(Freqs(Row(b, y)), x, n))
  }

  /** Inverting the rows of the transform commutes with transforming the columns. */
  lemma {:induction false} MixCommutes(b: seq<real>, v: nat, x: nat, n: nat)
    requires |b| == 64 && v < 8 && x < 8 && n <= 8
    ensures Mix(Row(Transform(b), v), x, n) == Times(Sum(Mixes(b, x, n), v, 8), Norm(v))
  {
    if n == 0 {
      SumZero(Mixes(b, x, 0), v, 8);
    } else {
      hide Times, Cos, Sum, Norm, Scale;
      var u := n - 1;
      var c, k := Column(b, u), Times(Scale(u), Cos(u, x));
      MixCommutes(b, v, x, u);
      assert Row(Transform(b), v)[u] == Freq(c, v) == Times(Sum(c, v, 8), Norm(v));
      forall y | 0 <= y < 8
        ensures Mixes(b, x, n)[y] == Mixes(b, x, u)[y] + Times(k, c[y])
      {
        assert Freqs(Row(b, y))[u] == c[y];
        Inner(Scale(u), c[y], Cos(u, x));
      }
      SumLinear(Mixes(b, x, u), c, Mixes(b, x, n), k, v, 8);
      Outer(Sum(Mixes(b, x, u), v, 8), Scale(u), Sum(c, v, 8), Cos(u, x), Norm(v));
    }
  }

  lemma {:induction false} SumZero(f: Eight, u: nat, n: nat)
    requires u < 8 && n <= 8 && forall i :: 0 <= i < 8 ==> f[i] == 0.0
    ensures Sum(f, u, n) == 0.0
  {
    if n > 0 {
      SumZero(f, u, n - 1);
    }
  }

  lemma Inner(s: real, c: real, w: real)
    ensures Times(Times(s, c), w) == Times(Times(s, w), c)
  {
  }

  lemma Outer(a: real, s: real, t: real, w: real, n: real)
    ensures Times(a + Times(Times(s, w), t), n) == Times(a, n) + Times(Times(s, Times(t, n)), w)
  {
  }

  /** The values the rows of `b` come back to at place `x`. */
  function Values(b: seq<real>, x: nat): (f: Eight)
    requires |b| == 64 && x < 8
    ensures forall y :: 0 <= y < 8 ==> f[y] == Value(Freqs(Row(b, y)), x)
  {
    seq(8, y requires 0 <= y < 8 => Value(Freqs(Row(b, y)), x))
  }

  lemma Halved(s: real, n: real)
    ensures Times(Times(s, n), 0.5) == Times(0.0 + Times(0.5, s), n)
  {
  }

  lemma SpotIsFreqs(b: seq<real>, x: nat)
    requires |b| == 64 && x < 8
    ensures Spot(Transform(b), x) == Freqs(Values(b, x))
  {
    hide Times, Cos, Sum, Norm, Mix;
    var e, m := Values(b, x), Mixes(b, x, 8);
    forall v | 0 <= v < 8
      ensures Spot(Transform(b), x)[v] == Freqs(e)[v]
    {
      MixCommutes(b, v, x, 8);
      var zero: Eight := [0.0, 0.0, 0.0, 0.0, 0.0, 0.0, 0.0, 0.0];
      forall y | 0 <= y < 8
        ensures e[y] == zero[y] + Times(0.5, m[y])
      {
        assert e[y] == Times(m[y], 0.5);
        Commute(m[y], 0.5);
      }
      SumLinear(zero, m, e, 0.5, v, 8);
      SumZero(zero, v, 8);
      Halved(Sum(m, v, 8), Norm(v));
    }
  }

  /** The decoder's inverse transform gives back every sample the encoder transformed, within two millionths. */
  lemma InverseNear(b: seq<real>, i: nat)
    requires Centred(b) && i < 64
    ensures -0.000002 <= Inverse(Transform(b))[i] - b[i] <= 0.000002
  {
    hide Value, Freq;
    var y, x := i / 8, i % 8;
    var e := Values(b, x);
    SpotIsFreqs(b, x);
    forall z | 0 <= z < 8
      ensures -0.00000052 <= e[z] - b[z * 8 + x] <= 0.00000052
    {
      ValueNear(Row(b, z), x, 128.0);
    }
    ValueNear(e, y, 129.0);
    assert i == y * 8 + x;
  }

  // ----- errors in the coefficients -----

  /** How far two sequences of eight are apart. */
  function Gap(g: Eight, h: Eight, n: nat): real
    requires n <= 8
  {
    if n == 0 then 0.0 else Gap(g, h, n - 1) + Abs(g[n - 1] - h[n - 1])
  }

  lemma CosRange(u: nat, x: nat)
    requires u < 8 && x < 8
    ensures -1.0 <= Cos(u, x) <= 1.0
  {
  }

  /** Scaling by at most 1 does not enlarge a difference. */
  lemma Shrink(a: real, b: real, c: real)
    requires -1.0 <= c <= 1.0
    ensures Abs(Times(a, c) - Times(b, c)) <= Abs(a - b)
  {
    Product(a, c, b, Abs(a - b));
    Monotone(Abs(a - b), Abs(c), 1.0);
  }

  lemma {:induction false} MixGap(g: Eight, h: Eight, x: nat, n: nat)
    requires x < 8 && n <= 8
    ensures Abs(Mix(g, x, n) - Mix(h, x, n)) <= Gap(g, h, n)
  {
    hide Cos;
    if n > 0 {
      var u := n - 1;
      var a, b := Times(Scale(u), g[u]), Times(Scale(u), h[u]);
      MixGap(g, h, x, u);
      CosRange(u, x);
      Shrink(a, b, Cos(u, x));
      Commute(Scale(u), g[u]);
      Commute(Scale(u), h[u]);
      Shrink(g[u], h[u], Scale(u));
      hide Times;
    }
  }

  lemma ValueGap(g: Eight, h: Eight, x: nat)
    requires x < 8
    ensures Abs(Value(g, x) - Value(h, x)) <= Gap(g, h, 8) / 2.0
  {
    hide Mix;
    MixGap(g, h, x, 8);
  }
}
