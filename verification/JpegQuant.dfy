/** Quantiser tables scaled by quality, quantisation of DCT coefficients over the reals, and the
    error the decoder's dequantisation leaves. */
module JpegQuant {
  import opened Bits
  import opened JpegTables
  import opened JpegBlock

  type Steps = q: seq<byte> | |q| == 64 && forall i :: 0 <= i < 64 ==> q[i] >= 1 witness seq(64, i => 1)

  function Scale(quality: int): (s: nat)
    ensures s >= 1
  {
    var s := if quality >= 50 then 200 - quality * 2 else 5000 / (if quality != 0 then quality else 1);
    if s < 1 then 1 else s
  }

  /** One standard step scaled and clamped to a byte; `5000 / quality` and this division truncate. */
  function Step(std: nat, scale: nat): (v: byte)
    ensures v >= 1
  {
    var v := (std * scale + 50) / 100;
    if v < 1 then 1 else if v > 255 then 255 else v
  }

  function StepsFor(std: seq<nat>, quality: int): (q: Steps)
    requires |std| == 64
  {
    seq(64, i requires 0 <= i < 64 => Step(std[i], Scale(quality)))
  }

  method MakeSteps(std: seq<nat>, quality: int) returns (q: Steps)
    requires |std| == 64
    ensures q == StepsFor(std, quality)
  {
    var scale := if quality >= 50 then 200 - quality * 2 else 5000 / (if quality != 0 then quality else 1);
    if scale < 1 {
      scale := 1;
    }
    var r: seq<byte> := [];
    for i := 0 to 64
      invariant |r| == i && forall j :: 0 <= j < i ==> r[j] == Step(std[j], Scale(quality))
    {
      var v := (std[i] * scale + 50) / 100;
      if v < 1 {
        v := 1;
      }
      if v > 255 {
        v := 255;
      }
      r := r + [v];
    }
    q := r;
  }

  lemma QuotientMono(n: nat, a: nat, b: nat)
    requires 1 <= a <= b
    ensures n / b <= n / a
  {
    var p, q := n / a, n / b;
    assert n == a * p + n % a && n == b * q + n % b;
    assert a * (p + 1) == a * p + a && q * a == a * q && q * b == b * q;
    MulMono(q, a, b);
    if q > p {
      MulMono(a, p + 1, q);
    }
  }

  /** A higher quality never scales up. */
  lemma ScaleMono(low: int, high: int)
    requires 0 <= low <= high
    ensures Scale(high) <= Scale(low)
  {
    var l, h := if low == 0 then 1 else low, if high == 0 then 1 else high;
    if high < 50 {
      QuotientMono(5000, l, h);
    } else if low < 50 {
      QuotientMono(5000, l, 50);
    }
  }

  lemma StepMono(std: nat, fine: nat, coarse: nat)
    requires fine <= coarse
    ensures Step(std, fine) <= Step(std, coarse)
  {
    MulMono(std, fine, coarse);
  }

  /** A higher quality never has a larger step. */
  lemma FinerQuality(std: seq<nat>, low: int, high: int, i: nat)
    requires |std| == 64 && 0 <= low <= high && i < 64
    ensures StepsFor(std, high)[i] <= StepsFor(std, low)[i]
  {
    hide Scale, Step;
    ScaleMono(low, high);
    StepMono(std[i], Scale(high), Scale(low));
  }

  /** Quality 50 is the standard table, and from quality 100 on all steps are 1. */
  lemma KnownQualities(std: seq<nat>, quality: int, i: nat)
    requires |std| == 64 && i < 64 && 1 <= std[i] <= 149 && quality >= 100
    ensures StepsFor(std, 50)[i] == std[i] && StepsFor(std, quality)[i] == 1
  {
  }

  // ----- quantisation -----

  /** `(int)(x + 0.5)` for nonnegative and `(int)(x - 0.5)` for negative `x`; the cast truncates. */
  function Round(x: real): int {
    if x >= 0.0 then (x + 0.5).Floor else -((0.5 - x).Floor)
  }

  /** Rounding is to the nearest integer, from the middle away from zero. */
  lemma RoundNearest(x: real)
    ensures -0.5 <= Round(x) as real - x <= 0.5 && Round(-x) == -Round(x) && (x >= 0.0 ==> Round(x) as real > x - 0.5)
  {
  }

  /** DCT coefficients in natural order; those of 8-bit samples are far below the bound. */
  type Dct = d: seq<real> | |d| == 64 && forall i :: 0 <= i < 64 ==> -32766.0 <= d[i] <= 32766.0
    witness seq(64, i => 0.0)

  function Level(d: real, step: byte): int
    requires step >= 1
  {
    Round(d / (step as real))
  }

  lemma LevelBound(d: real, step: byte)
    requires step >= 1 && -32766.0 <= d <= 32766.0
    ensures -0x8000 < Level(d, step) < 0x8000
  {
    var s := step as real;
    var x := d / s;
    assert x * s == d;
    if x >= 0.0 {
      Enlarges(x, s);
    } else {
      Enlarges(-x, s);
    }
    RoundNearest(x);
  }

  lemma Enlarges(x: real, s: real)
    requires x >= 0.0 && s >= 1.0
    ensures x * s >= x && -x * s == -(x * s)
  {
    assert x * (s - 1.0) >= 0.0;
  }

  /** The quantised block in zigzag order. */
  function QuantBlock(d: Dct, q: Steps): (b: Block)
    ensures forall k :: 0 <= k < 64 ==> b[k] == Level(d[Zz(k)], q[Zz(k)])
  {
    var b := seq(64, k requires 0 <= k < 64 => Level(d[Zz(k)], q[Zz(k)]));
    assert forall k :: 0 <= k < 64 ==> -0x8000 < b[k] < 0x8000 by {
      forall k | 0 <= k < 64
        ensures -0x8000 < b[k] < 0x8000
      {
        LevelBound(d[Zz(k)], q[Zz(k)]);
      }
    }
    b
  }

  method Quantise(d: Dct, q: Steps) returns (b: Block)
    ensures b == QuantBlock(d, q)
  {
    hide QuantBlock, Zz;
    var r: seq<int> := [];
    for i := 0 to 64
      invariant |r| == i && forall k :: 0 <= k < i ==> r[k] == QuantBlock(d, q)[k]
    {
      var z := Zz(i);
      var dv := d[z] / (q[z] as real);
      var level := if dv >= 0.0 then (dv + 0.5).Floor else -((0.5 - dv).Floor);
      assert level == Level(d[z], q[z]);
      r := r + [level];
    }
    assert r == QuantBlock(d, q);
    b := r;
  }

  // ----- dequantisation -----

  /** The table as a DQT segment carries it: the step of zigzag position k is that of natural index Zz(k). */
  function Zigzagged(q: Steps): (z: Steps)
    ensures forall k :: 0 <= k < 64 ==> z[k] == q[Zz(k)]
  {
    seq(64, k requires 0 <= k < 64 => q[Zz(k)])
  }

  /** What the decoder hands to the inverse DCT, in natural order. */
  function Dequant(c: seq<int>, qt: seq<byte>): (r: seq<int>)
    requires |c| == |qt| == 64
    ensures |r| == 64 && forall i :: 0 <= i < 64 ==> r[i] == c[Izz(i)] * qt[Izz(i)]
  {
    seq(64, i requires 0 <= i < 64 => c[Izz(i)] * qt[Izz(i)])
  }

  /** The step the decoder multiplies by at natural index i is the one the encoder divided by. */
  lemma SameStep(q: Steps, i: nat)
    requires i < 64
    ensures Zigzagged(q)[Izz(i)] == q[i]
  {
    ZigzagInverse(i);
  }

  /** Each dequantised coefficient is within half a step of the one that was quantised. */
  lemma QuantError(d: Dct, q: Steps, i: nat)
    requires i < 64
    ensures var err := Dequant(QuantBlock(d, q), Zigzagged(q))[i] as real - d[i];
            -(q[i] as real) <= 2.0 * err <= q[i] as real
  {
    ZigzagInverse(i);
    LevelError(d[i], q[i]);
  }

  lemma LevelError(d: real, step: byte)
    requires step >= 1
    ensures var err := (Level(d, step) * step) as real - d; -(step as real) <= 2.0 * err <= step as real
  {
    hide Round;
    var s, n := step as real, Level(d, step) as real;
    var x := d / s;
    RoundNearest(x);
    DivMul(d, s);
    Expand(n, x, s);
    HalfStep(n - x, s);
    CastMul(Level(d, step), step);
    var e := (n - x) * s;
    assert (Level(d, step) * step) as real - d == e;
  }

  lemma DivMul(d: real, s: real)
    requires s > 0.0
    ensures (d / s) * s == d
  {
  }

  lemma CastMul(a: int, b: int)
    ensures (a * b) as real == (a as real) * (b as real)
  {
  }

  lemma Expand(n: real, x: real, s: real)
    ensures (n - x) * s == n * s - x * s
  {
  }

  lemma HalfStep(e: real, s: real)
    requires -0.5 <= e <= 0.5 && s > 0.0
    ensures -s <= 2.0 * (e * s) <= s
  {
    assert 2.0 * (e * s) == (2.0 * e) * s;
    assert (2.0 * e + 1.0) * s >= 0.0 && (1.0 - 2.0 * e) * s >= 0.0;
  }

  /** Dequantisation loses nothing: different coefficients give different results. */
  lemma DequantInjective(c: seq<int>, d: seq<int>, qt: Steps)
    requires |c| == |d| == 64 && Dequant(c, qt) == Dequant(d, qt)
    ensures c == d
  {
    forall k | 0 <= k < 64
      ensures c[k] == d[k]
    {
      ZigzagInverse(k);
      var i := Zz(k);
      assert Dequant(c, qt)[i] == Dequant(d, qt)[i];
      MulCancel(c[k], d[k], qt[k]);
    }
  }

  lemma MulCancel(a: int, b: int, s: int)
    requires s >= 1 && a * s == b * s
    ensures a == b
  {
  }
}
