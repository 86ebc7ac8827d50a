/** How far decoded samples are from the samples that were encoded. */
module JpegSamples {
  import opened JpegTables
  import opened JpegScan
  import opened JpegQuant
  import opened JpegFile
  import opened JpegDct
  import opened JpegIdct
  import opened JpegEnergy
  import opened JpegPixels
  import opened JpegPicture
  import opened JpegEncoder

  /** The first `n` steps of row `v` of a quantiser table, added up. */
  function RowSteps(q: Steps, v: nat, n: nat): real
    requires v < 8 && n <= 8
  {
    if n == 0 then 0.0 else RowSteps(q, v, n - 1) + q[v * 8 + n - 1] as real
  }

  /** The steps of the first `n` rows, added up. */
  function AllSteps(q: Steps, n: nat): real
    requires n <= 8
  {
    if n == 0 then 0.0 else AllSteps(q, n - 1) + RowSteps(q, n - 1, 8)
  }

  function Reals(c: seq<int>): (d: seq<real>)
    ensures |d| == |c| && forall i :: 0 <= i < |c| ==> d[i] == c[i] as real
  {
    seq(|c|, i requires 0 <= i < |c| => c[i] as real)
  }

  /** Every coefficient of a block is within half of its step. */
  ghost predicate BlockApprox(c: seq<int>, d: Dct, q: Steps) {
    |c| == 64 && forall i :: 0 <= i < 64 ==> Near(c[i], d[i], q[i])
  }

  lemma {:induction false} RowGap(c: seq<int>, d: Dct, q: Steps, v: nat, n: nat)
    requires BlockApprox(c, d, q) && v < 8 && n <= 8
    ensures Gap(Row(Reals(c), v), Row(d, v), n) <= RowSteps(q, v, n) / 2.0
  {
    if n > 0 {
      RowGap(c, d, q, v, n - 1);
      assert Near(c[v * 8 + n - 1], d[v * 8 + n - 1], q[v * 8 + n - 1]);
    }
  }

  lemma {:induction false} SpotGap(c: seq<int>, d: Dct, q: Steps, x: nat, n: nat)
    requires BlockApprox(c, d, q) && x < 8 && n <= 8
    ensures Gap(Spot(Reals(c), x), Spot(d, x), n) <= AllSteps(q, n) / 4.0
  {
    hide Value, RowSteps, Near;
    if n > 0 {
      SpotGap(c, d, q, x, n - 1);
      RowGap(c, d, q, n - 1, 8);
      ValueGap(Row(Reals(c), n - 1), Row(d, n - 1), x);
    }
  }

  /** An eighth of the sum of the steps bounds what quantisation does to a sample. */
  lemma InverseGap(c: seq<int>, d: Dct, q: Steps, i: nat)
    requires BlockApprox(c, d, q) && i < 64
    ensures Abs(Inverse(Reals(c))[i] - Inverse(d)[i]) <= AllSteps(q, 8) / 8.0
  {
    hide Value, AllSteps, Near;
    SpotGap(c, d, q, i % 8, 8);
    ValueGap(Spot(Reals(c), i % 8), Spot(d, i % 8), i / 8);
  }

  /** Which block of the bitmap a coefficient block of the picture is. */
  lemma PictureAt(px: Bitmap, mw: nat, mh: nat, v: Visit)
    requires JpegPixels.Holds(px, 16 * mw, 16 * mh) && PictureOf(px, mw, mh).Has(v)
    ensures BlockIn(px, v.c, v.row, v.col) && PictureOf(px, mw, mh).At(v) == DctOf(px, v.c, v.row, v.col)
  {
    hide DctOf, PlaneOf, Sampled, AllSampled, BlockOf, BlockIn;
    if v.c == 0 {
      PlaneAt(px, 0, 2 * mh, 2 * mw, v.row, v.col);
    } else if v.c == 1 {
      PlaneAt(px, 1, mh, mw, v.row, v.col);
    } else {
      PlaneAt(px, 2, mh, mw, v.row, v.col);
    }
  }

  /** A decoded block is near the samples it was encoded from. */
  lemma SampleNear(px: Bitmap, v: Visit, c: seq<int>, q: Steps, i: nat)
    requires BlockIn(px, v.c, v.row, v.col) && BlockApprox(c, DctOf(px, v.c, v.row, v.col), q) && i < 64
    ensures Abs(Inverse(Reals(c))[i] - BlockOf(px, v.c, v.row, v.col)[i]) <= AllSteps(q, 8) / 8.0 + 0.000002
  {
    hide BlockApprox, Inverse, Transform, BlockOf, AllSteps;
    InverseGap(c, DctOf(px, v.c, v.row, v.col), q, i);
    InverseNear(BlockOf(px, v.c, v.row, v.col), i);
  }

  /** The steps that component `c` is quantised with. */
  function StepsOf(c: nat, quality: int): Steps {
    StepsFor(if c == 0 then STD_LUM_Q else STD_CHR_Q, quality)
  }

  /** What decoding an encoded bitmap gives for the block at `v`. */
  lemma DecodedBlock(w: Dim, h: Dim, px: Bitmap, quality: int, qt: QTabs, tabs: Tabs, o: Opts, v: Visit)
    requires DimsOk(w, h) && JpegPixels.Holds(px, w, h) && tabs.Valid() && !o.probe && SizeOk(w, h, o)
    requires PictureOf(px, w / 16, h / 16).Has(v)
    ensures var r := DecodeFile(Encoded(w, h, px, quality), qt, tabs, o);
            && r.Done? && v in r.planes && BlockIn(px, v.c, v.row, v.col)
            && BlockApprox(r.planes[v], DctOf(px, v.c, v.row, v.col), StepsOf(v.c, quality))
  {
    hide DecodeFile, Encoded, SizeOk, PictureOf, Near, StepsFor, DctOf;
    BitmapRoundTrip(w, h, px, quality, qt, tabs, o);
    PictureAt(px, w / 16, h / 16, v);
  }

  /** Every bitmap of a size both sides accept, at every quality, whatever tables earlier files left: each
      sample the decoder computes is near the one the encoder started from ... */
  lemma BitmapSamples(w: Dim, h: Dim, px: Bitmap, quality: int, qt: QTabs, tabs: Tabs, o: Opts, v: Visit, i: nat)
    requires DimsOk(w, h) && JpegPixels.Holds(px, w, h) && tabs.Valid() && !o.probe && SizeOk(w, h, o) && i < 64
    requires PictureOf(px, w / 16, h / 16).Has(v)
    ensures var r := DecodeFile(Encoded(w, h, px, quality), qt, tabs, o);
            && r.Done? && v in r.planes && |r.planes[v]| == 64 && BlockIn(px, v.c, v.row, v.col)
            && Abs(Inverse(Reals(r.planes[v]))[i] - BlockOf(px, v.c, v.row, v.col)[i])
               <= AllSteps(StepsOf(v.c, quality), 8) / 8.0 + 0.000002
  {
    hide DecodeFile, Encoded, SizeOk, PictureOf, Near, Inverse, BlockOf, AllSteps, StepsOf, DctOf;
    DecodedBlock(w, h, px, quality, qt, tabs, o, v);
    SampleNear(px, v, DecodeFile(Encoded(w, h, px, quality), qt, tabs, o).planes[v], StepsOf(v.c, quality), i);
  }

  // ----- mean-square error -----

  /** The squares of the first `n` steps of row `v`, added up. */
  function RowSquares(q: Steps, v: nat, n: nat): real
    requires v < 8 && n <= 8
  {
    if n == 0 then 0.0 else RowSquares(q, v, n - 1) + Times(q[v * 8 + n - 1] as real, q[v * 8 + n - 1] as real)
  }

  /** The squares of the steps of the first `n` rows, added up. */
  function AllSquares(q: Steps, n: nat): real
    requires n <= 8
  {
    if n == 0 then 0.0 else AllSquares(q, n - 1) + RowSquares(q, n - 1, 8)
  }

  lemma HalfSquare(e: real, s: real)
    requires -s <= 2.0 * e <= s
    ensures Times(e, e) <= Times(s, s) / 4.0
  {
    Nonnegative(s - 2.0 * e, s + 2.0 * e);
  }

  lemma {:induction false} RowSquareGap(c: seq<int>, d: Dct, q: Steps, v: nat, n: nat)
    requires BlockApprox(c, d, q) && v < 8 && n <= 8
    ensures var e := Row(Minus(Reals(c), d), v); Dotp(e, e, n) <= RowSquares(q, v, n) / 4.0
  {
    if n > 0 {
      var i := v * 8 + n - 1;
      RowSquareGap(c, d, q, v, n - 1);
      assert Near(c[i], d[i], q[i]);
      HalfSquare(c[i] as real - d[i], q[i] as real);
      hide Times;
    }
  }

  lemma {:induction false} CoefEnergy(c: seq<int>, d: Dct, q: Steps, n: nat)
    requires BlockApprox(c, d, q) && n <= 8
    ensures RowsEnergy(Minus(Reals(c), d), n) <= AllSquares(q, n) / 4.0
  {
    hide Dotp, RowSquares, Near;
    if n > 0 {
      CoefEnergy(c, d, q, n - 1);
      RowSquareGap(c, d, q, n - 1, 8);
    }
  }

  const STRETCH := 1.000001
  const REST := 0.0000041

  /** A tiny change to a number changes its square by a factor of almost 1 and a tiny term. */
  lemma SquareStretch(e: real, r: real)
    requires -0.000002 <= r <= 0.000002
    ensures Times(e + r, e + r) <= STRETCH * Times(e, e) + REST
  {
    var t := 0.001 * e - 1000.0 * r;
    Square(t);
    HalfSquare(r / 2.0, 0.000002);
    assert Times(e + r, e + r) + t * t == STRETCH * Times(e, e) + 1000001.0 * Times(r, r);
    assert Times(r, r) <= 0.000000000004;
  }

  /** Two blocks that are very close have very close energy. */
  lemma {:induction false} DotpStretch(p: Eight, e: Eight, n: nat)
    requires n <= 8 && forall i :: 0 <= i < 8 ==> -0.000002 <= p[i] - e[i] <= 0.000002
    ensures Dotp(p, p, n) <= STRETCH * Dotp(e, e, n) + REST * n as real
  {
    if n > 0 {
      DotpStretch(p, e, n - 1);
      SquareStretch(e[n - 1], p[n - 1] - e[n - 1]);
      hide Times;
    }
  }

  lemma {:induction false} RowsStretch(p: Square8, e: Square8, n: nat)
    requires n <= 8 && forall i :: 0 <= i < 64 ==> -0.000002 <= p[i] - e[i] <= 0.000002
    ensures RowsEnergy(p, n) <= STRETCH * RowsEnergy(e, n) + 8.0 * REST * n as real
  {
    hide Dotp;
    if n > 0 {
      RowsStretch(p, e, n - 1);
      DotpStretch(Row(p, n - 1), Row(e, n - 1), 8);
    }
  }

  /** The squared errors of a block's samples add up to at most a quarter of the squared steps, up to rounding. */
  lemma BlockMeanSquare(px: Bitmap, v: Visit, c: seq<int>, q: Steps)
    requires BlockIn(px, v.c, v.row, v.col) && BlockApprox(c, DctOf(px, v.c, v.row, v.col), q)
    ensures BlockEnergy(Minus(Inverse(Reals(c)), BlockOf(px, v.c, v.row, v.col)))
         <= 0.250001 * AllSquares(q, 8) + 0.0003
  {
    hide Inverse, Transform, BlockOf, AllSquares, RowsEnergy, Near;
    var d, b := DctOf(px, v.c, v.row, v.col), BlockOf(px, v.c, v.row, v.col);
    CoefEnergy(c, d, q, 8);
    InverseMinus(Reals(c), d);
    InverseEnergy(Minus(Reals(c), d));
    var p, e := Minus(Inverse(Reals(c)), b), Minus(Inverse(Reals(c)), Inverse(d));
    forall i | 0 <= i < 64
      ensures -0.000002 <= p[i] - e[i] <= 0.000002
    {
      InverseNear(b, i);
    }
    RowsStretch(p, e, 8);
    SquaresPositive(q, 8);
  }

  lemma {:induction false} SquaresPositive(q: Steps, n: nat)
    requires n <= 8
    ensures AllSquares(q, n) >= 0.0
  {
    if n > 0 {
      SquaresPositive(q, n - 1);
      RowSquaresPositive(q, n - 1, 8);
    }
  }

  lemma {:induction false} RowSquaresPositive(q: Steps, v: nat, n: nat)
    requires v < 8 && n <= 8
    ensures RowSquares(q, v, n) >= 0.0
  {
    if n > 0 {
      RowSquaresPositive(q, v, n - 1);
      Nonnegative(q[v * 8 + n - 1] as real, q[v * 8 + n - 1] as real);
    }
  }

  /** ... and the squared errors of each block add up to at most a quarter of the squared steps. */
  lemma BitmapMeanSquare(w: Dim, h: Dim, px: Bitmap, quality: int, qt: QTabs, tabs: Tabs, o: Opts, v: Visit)
    requires DimsOk(w, h) && JpegPixels.Holds(px, w, h) && tabs.Valid() && !o.probe && SizeOk(w, h, o)
    requires PictureOf(px, w / 16, h / 16).Has(v)
    ensures var r := DecodeFile(Encoded(w, h, px, quality), qt, tabs, o);
            && r.Done? && v in r.planes && |r.planes[v]| == 64 && BlockIn(px, v.c, v.row, v.col)
            && BlockEnergy(Minus(Inverse(Reals(r.planes[v])), BlockOf(px, v.c, v.row, v.col)))
               <= 0.250001 * AllSquares(StepsOf(v.c, quality), 8) + 0.0003
  {
    hide DecodeFile, Encoded, SizeOk, PictureOf, Near, Inverse, BlockOf, AllSquares, StepsOf, DctOf, BlockEnergy;
    DecodedBlock(w, h, px, quality, qt, tabs, o, v);
    BlockMeanSquare(px, v, DecodeFile(Encoded(w, h, px, quality), qt, tabs, o).planes[v], StepsOf(v.c, quality));
  }
}
