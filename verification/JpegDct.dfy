/** The encoder's forward cosine transform over the reals, and the range of its results. */
module JpegDct {
  const COS: seq<seq<real>> := [
    [1.0, 1.0, 1.0, 1.0, 1.0, 1.0, 1.0, 1.0],
    [0.980785280, 0.831469612, 0.555570233, 0.195090322, -0.195090322, -0.555570233, -0.831469612, -0.980785280],
    [0.923879533, 0.382683432, -0.382683432, -0.923879533, -0.923879533, -0.382683432, 0.382683432, 0.923879533],
    [0.831469612, -0.195090322, -0.980785280, -0.555570233, 0.555570233, 0.980785280, 0.195090322, -0.831469612],
    [0.707106781, -0.707106781, -0.707106781, 0.707106781, 0.707106781, -0.707106781, -0.707106781, 0.707106781],
    [0.555570233, -0.980785280, 0.195090322, 0.831469612, -0.831469612, -0.195090322, 0.980785280, -0.555570233],
    [0.382683432, -0.923879533, 0.923879533, -0.382683432, -0.382683432, 0.923879533, -0.923879533, 0.382683432],
    [0.195090322, -0.555570233, 0.831469612, -0.980785280, 0.980785280, -0.831469612, 0.555570233, -0.195090322]]

  function Cos(u: nat, x: nat): real
    requires u < 8 && x < 8
  {
    COS[u][x]
  }

  /** A product, named so that proofs can treat it as a whole. */
  function Times(a: real, b: real): real { a * b }

  type Eight = f: seq<real> | |f| == 8 witness [0.0, 0.0, 0.0, 0.0, 0.0, 0.0, 0.0, 0.0]

  /** The first `n` products of a row with frequency `u`. */
  function Sum(f: Eight, u: nat, n: nat): real
    requires u < 8 && n <= 8
  {
    if n == 0 then 0.0 else Sum(f, u, n - 1) + Times(f[n - 1], Cos(u, n - 1))
  }

  function Norm(u: nat): real { if u == 0 then 0.35355339059 else 0.5 }

  /** Frequency `u` of eight values. */
  function Freq(f: Eight, u: nat): real
    requires u < 8
  {
    Times(Sum(f, u, 8), Norm(u))
  }

  function Row(b: seq<real>, v: nat): (f: Eight)
    requires |b| == 64 && v < 8
    ensures forall x :: 0 <= x < 8 ==> f[x] == b[v * 8 + x]
  {
    seq(8, x requires 0 <= x < 8 => b[v * 8 + x])
  }

  /** Frequency `u` of each row. */
  function Column(b: seq<real>, u: nat): (f: Eight)
    requires |b| == 64 && u < 8
    ensures forall v :: 0 <= v < 8 ==> f[v] == Freq(Row(b, v), u)
  {
    seq(8, v requires 0 <= v < 8 => Freq(Row(b, v), u))
  }

  /** The transform of an 8x8 block in row-major order. */
  function Transform(b: seq<real>): (d: seq<real>)
    requires |b| == 64
    ensures |d| == 64 && forall v, u :: 0 <= v < 8 && 0 <= u < 8 ==> d[v * 8 + u] == Freq(Column(b, u), v)
  {
    seq(64, i requires 0 <= i < 64 => Freq(Column(b, i % 8), i / 8))
  }

  /** Every frequency of every row. */
  method RowPass(b: array<real>) returns (tmp: array<real>)
    requires b.Length == 64
    ensures fresh(tmp) && tmp.Length == 64
    ensures forall v, u :: 0 <= v < 8 && 0 <= u < 8 ==> tmp[v * 8 + u] == Freq(Row(b[..], v), u)
  {
    hide Times, COS;
    tmp := new real[64];
    for v := 0 to 8
      invariant forall j, k :: 0 <= j < v && 0 <= k < 8 ==> tmp[j * 8 + k] == Freq(Row(b[..], j), k)
    {
      ghost var f := Row(b[..], v);
      for u := 0 to 8
        invariant forall j, k :: 0 <= j < v && 0 <= k < 8 ==> tmp[j * 8 + k] == Freq(Row(b[..], j), k)
        invariant forall k :: 0 <= k < u ==> tmp[v * 8 + k] == Freq(f, k)
      {
        var s := 0.0;
        for x := 0 to 8
          invariant s == Sum(f, u, x)
        {
          assert f[x] == b[v * 8 + x];
          s := s + Times(b[v * 8 + x], Cos(u, x));
        }
        tmp[v * 8 + u] := Times(s, Norm(u));
      }
    }
  }

  /** The products of a column with frequency `v`, added up. */
  method ColumnSum(tmp: array<real>, u: nat, v: nat, ghost f: Eight) returns (s: real)
    requires tmp.Length == 64 && u < 8 && v < 8 && forall y :: 0 <= y < 8 ==> f[y] == tmp[y * 8 + u]
    ensures s == Sum(f, v, 8)
  {
    hide Times, COS;
    s := 0.0;
    for y := 0 to 8
      invariant s == Sum(f, v, y)
    {
      assert f[y] == tmp[y * 8 + u];
      s := s + Times(tmp[y * 8 + u], Cos(v, y));
    }
  }

  /** Every frequency of every column of row frequencies. */
  method ColumnPass(tmp: array<real>, ghost b: seq<real>) returns (d: array<real>)
    requires tmp.Length == 64 && |b| == 64
    requires forall v, u :: 0 <= v < 8 && 0 <= u < 8 ==> tmp[v * 8 + u] == Freq(Row(b, v), u)
    ensures fresh(d) && d.Length == 64
    ensures forall v, u :: 0 <= v < 8 && 0 <= u < 8 ==> d[v * 8 + u] == Freq(Column(b, u), v)
  {
    hide Times, COS;
    d := new real[64];
    for u := 0 to 8
      invariant forall j, k :: 0 <= j < 8 && 0 <= k < u ==> d[j * 8 + k] == Freq(Column(b, k), j)
    {
      ghost var f := Column(b, u);
      for v := 0 to 8
        invariant forall j, k :: 0 <= j < 8 && 0 <= k < u ==> d[j * 8 + k] == Freq(Column(b, k), j)
        invariant forall j :: 0 <= j < v ==> d[j * 8 + u] == Freq(f, j)
      {
        var s := ColumnSum(tmp, u, v, f);
        d[v * 8 + u] := Times(s, Norm(v));
      }
    }
  }

  method Fdct(b: array<real>) returns (d: array<real>)
    requires b.Length == 64
    ensures fresh(d) && d.Length == 64 && d[..] == Transform(b[..])
  {
    hide Freq;
    var tmp := RowPass(b);
    d := ColumnPass(tmp, b[..]);
    forall i | 0 <= i < 64
      ensures d[i] == Transform(b[..])[i]
    {
      assert i == i / 8 * 8 + i % 8;
      assert d[i / 8 * 8 + i % 8] == Freq(Column(b[..], i % 8), i / 8);
    }
  }

  // ----- range -----

  function Abs(c: real): real { if c < 0.0 then -c else c }

  function CosSum(u: nat, n: nat): real
    requires u < 8 && n <= 8
  {
    if n == 0 then 0.0 else CosSum(u, n - 1) + Cos(u, n - 1)
  }

  function AbsSum(u: nat, n: nat): (s: real)
    requires u < 8 && n <= 8
    ensures s >= 0.0
  {
    if n == 0 then 0.0 else AbsSum(u, n - 1) + Abs(Cos(u, n - 1))
  }

  lemma Nonnegative(a: real, b: real)
    requires a >= 0.0 && b >= 0.0
    ensures Times(a, b) >= 0.0
  {
  }

  lemma Expand(a: real, b: real, c: real, k: real)
    ensures Times(a + b + c, k) == Times(a, k) + Times(b, k) + Times(c, k)
    ensures Times(-a, k) == -Times(a, k) == Times(a, -k)
  {
  }

  lemma Product(a: real, c: real, m: real, r: real)
    requires m - r <= a <= m + r
    ensures Times(m, c) - Times(r, Abs(c)) <= Times(a, c) <= Times(m, c) + Times(r, Abs(c))
  {
    hide Times;
    var k := Abs(c);
    Nonnegative(a - m + r, k);
    Nonnegative(m - a + r, k);
    Expand(a, -m, r, k);
    Expand(m, -a, r, k);
    Expand(m, 0.0, 0.0, k);
    Expand(a, 0.0, 0.0, k);
    Expand(m, 0.0, 0.0, c);
    Expand(a, 0.0, 0.0, c);
  }

  lemma Distribute(k: real, a: real, b: real)
    ensures Times(k, a + b) == Times(k, a) + Times(k, b)
  {
  }

  /** Values within `r` of `m` give sums within `r` times the absolute weights of `m` times the weights. */
  lemma {:induction false} SumBound(f: Eight, u: nat, n: nat, m: real, r: real)
    requires u < 8 && n <= 8 && forall x :: 0 <= x < 8 ==> m - r <= f[x] <= m + r
    ensures Times(m, CosSum(u, n)) - Times(r, AbsSum(u, n)) <= Sum(f, u, n)
         <= Times(m, CosSum(u, n)) + Times(r, AbsSum(u, n))
  {
    hide Cos;
    if n > 0 {
      hide Times, Abs;
      SumBound(f, u, n - 1, m, r);
      var c := Cos(u, n - 1);
      Product(f[n - 1], c, m, r);
      Distribute(m, CosSum(u, n - 1), c);
      Distribute(r, AbsSum(u, n - 1), Abs(c));
    }
  }

  /** Only frequency 0 sees a common offset. */
  lemma Weights(u: nat)
    requires u < 8
    ensures CosSum(u, 8) == if u == 0 then 8.0 else 0.0
    ensures AbsSum(u, 8) <= if u == 0 then 8.0 else 5.656854248
  {
    hide Cos;
    Unrolled(u);
    RowWeights(u);
  }

  /** Each row of cosines but the first adds up to 0. */
  lemma RowWeights(u: nat)
    requires u < 8
    ensures Cos(u, 0) + Cos(u, 1) + Cos(u, 2) + Cos(u, 3) + Cos(u, 4) + Cos(u, 5) + Cos(u, 6) + Cos(u, 7)
         == if u == 0 then 8.0 else 0.0
    ensures Abs(Cos(u, 0)) + Abs(Cos(u, 1)) + Abs(Cos(u, 2)) + Abs(Cos(u, 3)) + Abs(Cos(u, 4)) + Abs(Cos(u, 5))
            + Abs(Cos(u, 6)) + Abs(Cos(u, 7))
         <= if u == 0 then 8.0 else 5.656854248
  {
  }

  lemma Unrolled(u: nat)
    requires u < 8
    ensures CosSum(u, 8)
         == Cos(u, 0) + Cos(u, 1) + Cos(u, 2) + Cos(u, 3) + Cos(u, 4) + Cos(u, 5) + Cos(u, 6) + Cos(u, 7)
    ensures AbsSum(u, 8) == Abs(Cos(u, 0)) + Abs(Cos(u, 1)) + Abs(Cos(u, 2)) + Abs(Cos(u, 3)) + Abs(Cos(u, 4))
                            + Abs(Cos(u, 5)) + Abs(Cos(u, 6)) + Abs(Cos(u, 7))
  {
    hide Cos, Abs;
    assert CosSum(u, 1) == Cos(u, 0);
    assert CosSum(u, 2) == CosSum(u, 1) + Cos(u, 1);
    assert CosSum(u, 3) == CosSum(u, 2) + Cos(u, 2);
    assert CosSum(u, 4) == CosSum(u, 3) + Cos(u, 3);
    assert CosSum(u, 5) == CosSum(u, 4) + Cos(u, 4);
    assert CosSum(u, 6) == CosSum(u, 5) + Cos(u, 5);
    assert CosSum(u, 7) == CosSum(u, 6) + Cos(u, 6);
    assert AbsSum(u, 1) == Abs(Cos(u, 0));
    assert AbsSum(u, 2) == AbsSum(u, 1) + Abs(Cos(u, 1));
    assert AbsSum(u, 3) == AbsSum(u, 2) + Abs(Cos(u, 2));
    assert AbsSum(u, 4) == AbsSum(u, 3) + Abs(Cos(u, 3));
    assert AbsSum(u, 5) == AbsSum(u, 4) + Abs(Cos(u, 4));
    assert AbsSum(u, 6) == AbsSum(u, 5) + Abs(Cos(u, 5));
    assert AbsSum(u, 7) == AbsSum(u, 6) + Abs(Cos(u, 6));
  }

  const GAIN := 2.82842712472 // 8 times the norm of frequency 0, and no other frequency gains more

  /** Frequency 0 scales the range of the values, the others give a range around 0. */
  lemma FreqBound(f: Eight, u: nat, m: real, r: real)
    requires u < 8 && r >= 0.0 && forall x :: 0 <= x < 8 ==> m - r <= f[x] <= m + r
    ensures u == 0 ==> GAIN * (m - r) <= Freq(f, u) <= GAIN * (m + r)
    ensures u > 0 ==> -(GAIN * r) <= Freq(f, u) <= GAIN * r
  {
    hide Sum, CosSum, AbsSum;
    SumBound(f, u, 8, m, r);
    Weights(u);
    if u == 0 {
      Monotone(r, AbsSum(u, 8), 8.0);
    } else {
      Monotone(r, AbsSum(u, 8), 5.656854248);
    }
  }

  lemma Monotone(r: real, a: real, b: real)
    requires r >= 0.0 && a <= b
    ensures Times(r, a) <= Times(r, b)
  {
    assert r * (b - a) >= 0.0;
  }

  /** Samples of 8 bits, moved to around 0. */
  ghost predicate Centred(b: seq<real>) {
    |b| == 64 && forall i :: 0 <= i < 64 ==> -128.0 <= b[i] <= 127.5
  }

  /** The mean coefficient of 8-bit samples lies between -1024 and 1020, all others between -1022 and 1022. */
  lemma TransformRange(b: seq<real>, i: nat)
    requires Centred(b) && i < 64
    ensures i == 0 ==> -1024.0 <= Transform(b)[i] <= 1020.0
    ensures i > 0 ==> -1022.0 <= Transform(b)[i] <= 1022.0
  {
    hide Freq;
    var v, u := i / 8, i % 8;
    var f := Column(b, u);
    forall y | 0 <= y < 8
      ensures u == 0 ==> GAIN * -128.0 <= f[y] <= GAIN * 127.5
      ensures u > 0 ==> -(GAIN * 127.75) <= f[y] <= GAIN * 127.75
    {
      FreqBound(Row(b, y), u, -0.25, 127.75);
    }
    assert Transform(b)[v * 8 + u] == Freq(f, v);
    if u == 0 {
      FreqBound(f, v, GAIN * -0.25, GAIN * 127.75);
    } else {
      FreqBound(f, v, 0.0, GAIN * 127.75);
    }
  }
}
