/** The inverse transform keeps sums of squares. */
module JpegEnergy {
  import opened JpegDct
  import opened JpegIdct

  /** The first `n` products of two sequences of eight, added up. */
  function Dotp(p: Eight, q: Eight, n: nat): real
    requires n <= 8
  {
    if n == 0 then 0.0 else Dotp(p, q, n - 1) + Times(p[n - 1], q[n - 1])
  }

  function Energy(p: Eight): real { Dotp(p, p, 8) }

  lemma {:induction false} DotpCommutes(p: Eight, q: Eight, n: nat)
    requires n <= 8
    ensures Dotp(p, q, n) == Dotp(q, p, n)
  {
    if n > 0 {
      DotpCommutes(p, q, n - 1);
      Commute(p[n - 1], q[n - 1]);
      hide Times;
    }
  }

  lemma {:induction false} DotpAdds(p: Eight, q: Eight, k: real, r: Eight, s: Eight, n: nat)
    requires n <= 8 && forall i :: 0 <= i < 8 ==> p[i] == q[i] + Times(k, r[i])
    ensures Dotp(p, s, n) == Dotp(q, s, n) + Times(k, Dotp(r, s, n))
  {
    if n > 0 {
      var i := n - 1;
      DotpAdds(p, q, k, r, s, i);
      AddTimes(q[i], k, r[i], s[i]);
      hide Times;
      Distribute(k, Dotp(r, s, i), Times(r[i], s[i]));
    }
  }

  // ----- the waves are orthogonal -----

  /** Frequency `u` at all places, twice. */
  function Wave(u: nat): (f: Eight)
    requires u < 8
    ensures forall x :: 0 <= x < 8 ==> f[x] == Times(Scale(u), Cos(u, x))
  {
    seq(8, x requires 0 <= x < 8 => Times(Scale(u), Cos(u, x)))
  }

  function WaveTerms(u: nat, w: nat): real
    requires u < 8 && w < 8
  {
    Cos(u, 0) * Cos(w, 0) + Cos(u, 1) * Cos(w, 1) + Cos(u, 2) * Cos(w, 2) + Cos(u, 3) * Cos(w, 3)
    + Cos(u, 4) * Cos(w, 4) + Cos(u, 5) * Cos(w, 5) + Cos(u, 6) * Cos(w, 6) + Cos(u, 7) * Cos(w, 7)
  }

  const SMALL := 0.00000001

  predicate NearWave(u: nat, w: nat)
    requires u < 8 && w < 8
  {
    var d := Scale(u) * Scale(w) * WaveTerms(u, w);
    if u == w then 4.0 - SMALL <= d <= 4.0 + SMALL else -SMALL <= d <= SMALL
  }

  lemma LowWaves(u: nat, w: nat)
    requires u < 4 && w < 8
    ensures NearWave(u, w)
  {
  }

  lemma HighWaves(u: nat, w: nat)
    requires 4 <= u < 8 && w < 8
    ensures NearWave(u, w)
  {
  }

  lemma WaveProduct(u: nat, w: nat, x: nat)
    requires u < 8 && w < 8 && x < 8
    ensures Times(Wave(u)[x], Wave(w)[x]) == Scale(u) * Scale(w) * (Cos(u, x) * Cos(w, x))
  {
    hide Cos, Scale;
    var a, b, c, d := Scale(u), Cos(u, x), Scale(w), Cos(w, x);
    assert (a * b) * (c * d) == a * c * (b * d);
  }

  lemma SumProduct(k: real, a: real, b: real, c: real, d: real, e: real, f: real, g: real, h: real)
    ensures k * a + k * b + k * c + k * d + k * e + k * f + k * g + k * h == k * (a + b + c + d + e + f + g + h)
  {
  }

  lemma WaveDot(u: nat, w: nat)
    requires u < 8 && w < 8
    ensures Dotp(Wave(u), Wave(w), 8) == Scale(u) * Scale(w) * WaveTerms(u, w)
  {
    hide Cos, Scale, Times, Wave;
    var p, q := Wave(u), Wave(w);
    assert Dotp(p, q, 1) == Times(p[0], q[0]);
    assert Dotp(p, q, 2) == Dotp(p, q, 1) + Times(p[1], q[1]);
    assert Dotp(p, q, 3) == Dotp(p, q, 2) + Times(p[2], q[2]);
    assert Dotp(p, q, 4) == Dotp(p, q, 3) + Times(p[3], q[3]);
    assert Dotp(p, q, 5) == Dotp(p, q, 4) + Times(p[4], q[4]);
    assert Dotp(p, q, 6) == Dotp(p, q, 5) + Times(p[5], q[5]);
    assert Dotp(p, q, 7) == Dotp(p, q, 6) + Times(p[6], q[6]);
    forall x | 0 <= x < 8
      ensures Times(p[x], q[x]) == Scale(u) * Scale(w) * (Cos(u, x) * Cos(w, x))
    {
      WaveProduct(u, w, x);
    }
    SumProduct(Scale(u) * Scale(w), Cos(u, 0) * Cos(w, 0), Cos(u, 1) * Cos(w, 1), Cos(u, 2) * Cos(w, 2),
               Cos(u, 3) * Cos(w, 3), Cos(u, 4) * Cos(w, 4), Cos(u, 5) * Cos(w, 5), Cos(u, 6) * Cos(w, 6),
               Cos(u, 7) * Cos(w, 7));
  }

  /** Different waves have almost no common part, and each has energy 4. */
  lemma WavesOrthogonal(u: nat, w: nat)
    requires u < 8 && w < 8
    ensures var d := Dotp(Wave(u), Wave(w), 8);
            if u == w then 4.0 - SMALL <= d <= 4.0 + SMALL else -SMALL <= d <= SMALL
  {
    hide Dotp, WaveTerms, Scale;
    WaveDot(u, w);
    if u < 4 {
      LowWaves(u, w);
    } else {
      HighWaves(u, w);
    }
  }

  // ----- one dimension -----

  /** What the first `n` frequencies give at all places, twice. */
  function Mixed(g: Eight, n: nat): (f: Eight)
    requires n <= 8
    ensures forall x :: 0 <= x < 8 ==> f[x] == Mix(g, x, n)
  {
    seq(8, x requires 0 <= x < 8 => Mix(g, x, n))
  }

  lemma MixedNext(g: Eight, n: nat, x: nat)
    requires n < 8 && x < 8
    ensures Mixed(g, n + 1)[x] == Mixed(g, n)[x] + Times(g[n], Wave(n)[x])
  {
    hide Cos, Scale;
    var s, c := Scale(n), Cos(n, x);
    assert (s * g[n]) * c == g[n] * (s * c);
  }

  lemma Square(a: real)
    ensures a * a >= 0.0
  {
    if a >= 0.0 {
      Nonnegative(a, a);
    } else {
      Nonnegative(-a, -a);
    }
  }

  lemma SmallCross(k: real, g: real, d: real)
    requires -SMALL <= d <= SMALL
    ensures 2.0 * Times(k, Times(g, d)) <= SMALL * (Times(k, k) + Times(g, g))
  {
    var p, q := 2.0 * k * g, Times(k, k) + Times(g, g);
    Square(k - g);
    Square(k + g);
    assert q - p == (k - g) * (k - g) && q + p == (k + g) * (k + g);
    if d >= 0.0 {
      Scaled(d, p, q);
      assert d * p == 2.0 * Times(k, Times(g, d));
    } else {
      Scaled(-d, -p, q);
      assert -d * -p == 2.0 * Times(k, Times(g, d));
    }
  }

  lemma Scaled(d: real, p: real, q: real)
    requires 0.0 <= d <= SMALL && p <= q && q >= 0.0
    ensures d * p <= SMALL * q
  {
    Nonnegative(d, q - p);
    Nonnegative(SMALL - d, q);
  }

  /** A wave has almost nothing in common with what the frequencies below it give. */
  lemma {:induction false} CrossSmall(g: Eight, n: nat, m: nat, k: real)
    requires n <= m < 8
    ensures 2.0 * Times(k, Dotp(Mixed(g, n), Wave(m), 8)) <= SMALL * (n as real * Times(k, k) + Dotp(g, g, n))
    decreases n
  {
    if n == 0 {
      DotpZero(Mixed(g, 0), Wave(m), 8);
    } else {
      var u := n - 1;
      CrossSmall(g, u, m, k);
      forall x | 0 <= x < 8
        ensures Mixed(g, n)[x] == Mixed(g, u)[x] + Times(g[u], Wave(u)[x])
      {
        MixedNext(g, u, x);
      }
      DotpAdds(Mixed(g, n), Mixed(g, u), g[u], Wave(u), Wave(m), 8);
      WavesOrthogonal(u, m);
      SmallCross(k, g[u], Dotp(Wave(u), Wave(m), 8));
      hide Mixed, Wave;
      CrossStep(k, Dotp(Mixed(g, u), Wave(m), 8), Times(g[u], Dotp(Wave(u), Wave(m), 8)), u, Dotp(g, g, u), g[u]);
    }
  }

  lemma CrossStep(k: real, a: real, b: real, u: nat, s: real, g: real)
    requires 2.0 * Times(k, a) <= SMALL * (u as real * Times(k, k) + s)
    requires 2.0 * Times(k, b) <= SMALL * (Times(k, k) + Times(g, g))
    ensures 2.0 * Times(k, a + b) <= SMALL * ((u + 1) as real * Times(k, k) + (s + Times(g, g)))
  {
    Distribute(k, a, b);
    var e := Times(k, k);
    assert (u + 1) as real * e == u as real * e + e;
    hide Times;
  }

  lemma {:induction false} DotpZero(p: Eight, q: Eight, n: nat)
    requires n <= 8 && forall i :: 0 <= i < 8 ==> p[i] == 0.0
    ensures Dotp(p, q, n) == 0.0
  {
    if n > 0 {
      DotpZero(p, q, n - 1);
    }
  }

  /** Each frequency adds its own energy and almost nothing else. */
  lemma {:induction false} MixedEnergy(g: Eight, n: nat)
    requires n <= 8
    ensures Energy(Mixed(g, n)) <= (4.0 + SMALL * n as real) * Dotp(g, g, n)
  {
    if n == 0 {
      DotpZero(Mixed(g, 0), Mixed(g, 0), 8);
    } else {
      var u := n - 1;
      var p, q, w, k := Mixed(g, n), Mixed(g, u), Wave(u), g[u];
      MixedEnergy(g, u);
      forall x | 0 <= x < 8
        ensures p[x] == q[x] + Times(k, w[x])
      {
        MixedNext(g, u, x);
      }
      DotpAdds(p, q, k, w, p, 8);
      DotpCommutes(q, p, 8);
      DotpCommutes(w, p, 8);
      DotpAdds(p, q, k, w, q, 8);
      DotpAdds(p, q, k, w, w, 8);
      DotpCommutes(w, q, 8);
      CrossSmall(g, u, u, k);
      WavesOrthogonal(u, u);
      hide Mixed, Wave, Dotp;
      EnergyStep(k, Dotp(q, q, 8), Dotp(q, w, 8), Dotp(w, w, 8), u, Dotp(g, g, u));
    }
  }

  lemma EnergyStep(k: real, e: real, x: real, w: real, n: nat, s: real)
    requires e <= (4.0 + SMALL * n as real) * s && w <= 4.0 + SMALL
    requires 2.0 * Times(k, x) <= SMALL * (n as real * Times(k, k) + s)
    ensures e + Times(k, x) + Times(k, x + Times(k, w)) <= (4.0 + SMALL * (n + 1) as real) * (s + Times(k, k))
  {
    var m, k2 := n as real, Times(k, k);
    Square(k);
    Nonnegative(k2, 4.0 + SMALL - w);
    assert Times(k, x + Times(k, w)) == Times(k, x) + k2 * w;
    assert k2 * w <= k2 * (4.0 + SMALL);
    assert (4.0 + SMALL * (m + 1.0)) * (s + k2)
        == (4.0 + SMALL * m) * s + SMALL * (m * k2 + s) + k2 * (4.0 + SMALL);
  }

  /** The values of eight frequencies. */
  function ValuesOf(g: Eight): (f: Eight)
    ensures forall x :: 0 <= x < 8 ==> f[x] == Value(g, x)
  {
    seq(8, x requires 0 <= x < 8 => Value(g, x))
  }

  const GROWTH := 1.00000002

  lemma {:induction false} DotpHalves(p: Eight, q: Eight, n: nat)
    requires n <= 8 && forall i :: 0 <= i < 8 ==> p[i] == Times(q[i], 0.5)
    ensures Dotp(p, p, n) == 0.25 * Dotp(q, q, n)
  {
    if n > 0 {
      DotpHalves(p, q, n - 1);
      assert Times(p[n - 1], p[n - 1]) == 0.25 * Times(q[n - 1], q[n - 1]);
    }
  }

  /** The inverse transform keeps the energy of eight frequencies, up to the rounding of the table. */
  lemma ValueEnergy(g: Eight)
    ensures Energy(ValuesOf(g)) <= GROWTH * Energy(g)
  {
    hide Dotp, Mix;
    MixedEnergy(g, 8);
    DotpHalves(ValuesOf(g), Mixed(g, 8), 8);
  }

  // ----- two dimensions -----

  type Square8 = b: seq<real> | |b| == 64 witness seq(64, i => 0.0)

  function Col(b: Square8, x: nat): (f: Eight)
    requires x < 8
    ensures forall y :: 0 <= y < 8 ==> f[y] == b[y * 8 + x]
  {
    seq(8, y requires 0 <= y < 8 => b[y * 8 + x])
  }

  function RowsEnergy(b: Square8, n: nat): real
    requires n <= 8
  {
    if n == 0 then 0.0 else RowsEnergy(b, n - 1) + Energy(Row(b, n - 1))
  }

  function ColsEnergy(b: Square8, n: nat): real
    requires n <= 8
  {
    if n == 0 then 0.0 else ColsEnergy(b, n - 1) + Energy(Col(b, n - 1))
  }

  /** The sum of the squares of a block. */
  function BlockEnergy(b: Square8): real { RowsEnergy(b, 8) }

  /** The squares of the first `n` places of the first `k` rows. */
  function Part(b: Square8, k: nat, n: nat): real
    requires k <= 8 && n <= 8
  {
    if k == 0 then 0.0 else Part(b, k - 1, n) + Dotp(Row(b, k - 1), Row(b, k - 1), n)
  }

  lemma {:induction false} PartNext(b: Square8, k: nat, n: nat)
    requires k <= 8 && n < 8
    ensures Part(b, k, n + 1) == Part(b, k, n) + Dotp(Col(b, n), Col(b, n), k)
  {
    hide Times;
    if k > 0 {
      PartNext(b, k - 1, n);
      assert Row(b, k - 1)[n] == Col(b, n)[k - 1];
    }
  }

  lemma {:induction false} PartNone(b: Square8, k: nat)
    requires k <= 8
    ensures Part(b, k, 0) == 0.0
  {
    if k > 0 {
      PartNone(b, k - 1);
    }
  }

  lemma {:induction false} PartIsRows(b: Square8, k: nat)
    requires k <= 8
    ensures Part(b, k, 8) == RowsEnergy(b, k)
  {
    if k > 0 {
      PartIsRows(b, k - 1);
    }
  }

  lemma {:induction false} PartIsCols(b: Square8, n: nat)
    requires n <= 8
    ensures Part(b, 8, n) == ColsEnergy(b, n)
  {
    if n == 0 {
      PartNone(b, 8);
    } else {
      PartIsCols(b, n - 1);
      PartNext(b, 8, n - 1);
    }
  }

  lemma EnergyByColumns(b: Square8)
    ensures BlockEnergy(b) == ColsEnergy(b, 8)
  {
    PartIsRows(b, 8);
    PartIsCols(b, 8);
  }

  /** The block between the two passes of the inverse transform. */
  function Halfway(d: Square8): (t: Square8)
    ensures forall v, x :: 0 <= v < 8 && 0 <= x < 8 ==> t[v * 8 + x] == Value(Row(d, v), x)
  {
    seq(64, i requires 0 <= i < 64 => Value(Row(d, i / 8), i % 8))
  }

  lemma {:induction false} FirstPass(d: Square8, n: nat)
    requires n <= 8
    ensures RowsEnergy(Halfway(d), n) <= GROWTH * RowsEnergy(d, n)
  {
    hide Energy, Value;
    if n > 0 {
      FirstPass(d, n - 1);
      assert Row(Halfway(d), n - 1) == ValuesOf(Row(d, n - 1));
      ValueEnergy(Row(d, n - 1));
    }
  }

  lemma {:induction false} SecondPass(d: Square8, n: nat)
    requires n <= 8
    ensures ColsEnergy(Inverse(d), n) <= GROWTH * ColsEnergy(Halfway(d), n)
  {
    hide Energy, Value;
    if n > 0 {
      SecondPass(d, n - 1);
      assert Col(Halfway(d), n - 1) == Spot(d, n - 1);
      assert Col(Inverse(d), n - 1) == ValuesOf(Spot(d, n - 1));
      ValueEnergy(Spot(d, n - 1));
    }
  }

  /** The inverse transform of a block has the energy of its coefficients, up to the rounding of the table. */
  lemma InverseEnergy(d: Square8)
    ensures BlockEnergy(Inverse(d)) <= GROWTH * GROWTH * BlockEnergy(d)
  {
    hide RowsEnergy, ColsEnergy, Inverse, Halfway;
    EnergyByColumns(Inverse(d));
    SecondPass(d, 8);
    EnergyByColumns(Halfway(d));
    FirstPass(d, 8);
  }

  // ----- differences -----

  function Minus(c: Square8, d: Square8): (e: Square8)
    ensures forall i :: 0 <= i < 64 ==> e[i] == c[i] - d[i]
  {
    seq(64, i requires 0 <= i < 64 => c[i] - d[i])
  }

  lemma {:induction false} MixMinus(g: Eight, h: Eight, e: Eight, x: nat, n: nat)
    requires x < 8 && n <= 8 && forall i :: 0 <= i < 8 ==> e[i] == g[i] - h[i]
    ensures Mix(e, x, n) == Mix(g, x, n) - Mix(h, x, n)
  {
    if n > 0 {
      var u := n - 1;
      MixMinus(g, h, e, x, u);
      MinusTimes(Scale(u), g[u], h[u], Cos(u, x));
      hide Times;
    }
  }

  lemma MinusTimes(s: real, g: real, h: real, c: real)
    ensures Times(Times(s, g - h), c) == Times(Times(s, g), c) - Times(Times(s, h), c)
  {
  }

  lemma ValueMinus(g: Eight, h: Eight, e: Eight, x: nat)
    requires x < 8 && forall i :: 0 <= i < 8 ==> e[i] == g[i] - h[i]
    ensures Value(e, x) == Value(g, x) - Value(h, x)
  {
    hide Mix;
    MixMinus(g, h, e, x, 8);
  }

  /** The inverse transform is linear. */
  lemma InverseMinus(c: Square8, d: Square8)
    ensures Inverse(Minus(c, d)) == Minus(Inverse(c), Inverse(d))
  {
    hide Value;
    var e := Minus(c, d);
    forall i | 0 <= i < 64
      ensures Inverse(e)[i] == Minus(Inverse(c), Inverse(d))[i]
    {
      var y, x := i / 8, i % 8;
      forall v | 0 <= v < 8
        ensures Spot(e, x)[v] == Spot(c, x)[v] - Spot(d, x)[v]
      {
        ValueMinus(Row(c, v), Row(d, v), Row(e, v), x);
      }
      ValueMinus(Spot(c, x), Spot(d, x), Spot(e, x), y);
    }
  }
}
