/** From decoded blocks to the pixels of the picture: sample planes, upsampling and colour. */
module JpegRender {
  import opened Bits
  import opened JpegScan
  import opened JpegFile
  import opened JpegDecoder
  import opened JpegIdct
  import opened JpegPixels
  import opened JpegRoundTrip
  import opened JpegPicture
  import opened JpegEncoder
  import opened JpegSamples
  import opened JpegOrder
  import opened JpegColour

  // ----- planes -----

  /** `size` samples at `n` of every `max`, rounded up. */
  function Scaled(size: nat, n: nat, max: nat): nat
    requires max >= 1
  {
    (size * n + max - 1) / max
  }

  function PlaneW(f: Frame, c: nat): nat
    requires c < |f.comps|
  {
    Scaled(f.fw, f.comps[c].h, MaxH(f.comps))
  }

  function PlaneH(f: Frame, c: nat): nat
    requires c < |f.comps|
  {
    Scaled(f.fh, f.comps[c].v, MaxV(f.comps))
  }

  lemma DivLess(a: nat, b: nat, d: nat)
    requires d >= 1 && a < d * b
    ensures 0 <= a / d < b
  {
    assert a == d * (a / d) + a % d;
    if a / d >= b {
      MulMono(d, b, a / d);
    }
  }

  /** A plane is no larger than the picture, and as large at the highest rate; each sample used for a pixel is
      in it, and in a block of the MCUs. */
  lemma ScaledIs(size: nat, n: nat, max: nat)
    requires 1 <= n <= max && size >= 1
    ensures 1 <= Scaled(size, n, max) <= size && (n == max ==> Scaled(size, n, max) == size)
  {
    MulMono(size, n, max);
    MulMono(n, 1, size);
    assert size * max == max * size && n * size == size * n && max * (size + 1) == max * size + max;
    assert max * 1 == max;
    Between(size * n + max - 1, max, 1, size);
    if n == max {
      Between(size * n + max - 1, max, size, size);
    }
  }

  lemma Between(a: nat, d: nat, lo: nat, hi: nat)
    requires d >= 1 && d * lo <= a < d * (hi + 1)
    ensures lo <= a / d <= hi
  {
    DivLess(a, hi + 1, d);
    assert a == d * (a / d) + a % d;
    assert d * (a / d + 1) == d * (a / d) + d;
    if a / d < lo {
      MulMono(d, a / d + 1, lo);
    }
  }

  /** The coordinate of the sample that pixel coordinate `x` lies in. */
  function Coarse(x: nat, n: nat, max: nat): nat
    requires max >= 1
  {
    x * n / max
  }

  lemma ScaledUsed(size: nat, n: nat, max: nat, x: nat)
    requires 1 <= n <= max && x < size
    ensures Coarse(x, n, max) < Scaled(size, n, max)
  {
    var q, s := Coarse(x, n, max), Scaled(size, n, max);
    assert x * n == max * q + x * n % max;
    assert size * n + max - 1 == max * s + (size * n + max - 1) % max;
    MulMono(n, x + 1, size);
    assert n * (x + 1) == x * n + n && n * size == size * n;
    if s <= q {
      MulMono(max, s, q);
    }
  }

  lemma ScaledCovered(size: nat, n: nat, max: nat, x: nat)
    requires 1 <= n <= max && size >= 1 && x < Scaled(size, n, max)
    ensures x / 8 < Mcus(size, max) * n
  {
    var m, s := Mcus(size, max), Scaled(size, n, max);
    McusCover(size, max, m);
    assert size * n + max - 1 == max * s + (size * n + max - 1) % max;
    MulMono(n, size, 8 * max * m);
    assert n * (8 * max * m) == max * (8 * (m * n));
    assert max * (8 * (m * n) + 1) == max * (8 * (m * n)) + max;
    if 8 * (m * n) < s {
      MulMono(max, 8 * (m * n) + 1, s);
    }
  }

  /** The cells of a plane's buffer. */
  const CELLS := JPEG_MAX_W * JPEG_MAX_H

  /** A frame of accepted size with one component or three. */
  predicate Drawable(f: Frame) {
    f.Valid() && f.fw <= JPEG_MAX_W && f.fh <= JPEG_MAX_H && |f.comps| != 2
  }

  lemma PlaneFits(f: Frame, c: nat)
    requires Drawable(f) && c < |f.comps|
    ensures 1 <= PlaneW(f, c) <= f.fw && 1 <= PlaneH(f, c) <= f.fh
    ensures PlaneH(f, c) * PlaneW(f, c) <= CELLS
  {
    hide MaxH, MaxV;
    ScaledIs(f.fw, f.comps[c].h, MaxH(f.comps));
    ScaledIs(f.fh, f.comps[c].v, MaxV(f.comps));
    MulMono(PlaneH(f, c), PlaneW(f, c), JPEG_MAX_W);
    MulMono(JPEG_MAX_W, PlaneH(f, c), JPEG_MAX_H);
  }

  /** Sample (x, y) of component `c`: what the inverse transform of its block gives, or what a cleared plane holds. */
  function SampleOf(planes: map<Visit, seq<int>>, c: nat, x: nat, y: nat): real {
    var v := Visit(c, y / 8, x / 8);
    if v in planes && |planes[v]| == 64 then Inverse(Reals(planes[v]))[y % 8 * 8 + x % 8] else 0.0
  }

  /** A buffer starts with the samples of component `c`, row by row. */
  ghost predicate Filled(planes: map<Visit, seq<int>>, c: nat, pw: nat, ph: nat, p: seq<real>) {
    && pw >= 1 && ph * pw <= |p|
    && forall k :: 0 <= k < ph * pw ==> p[k] == SampleOf(planes, c, k % pw, k / pw)
  }

  // ----- pixels -----

  /** The cell of the luma sample of a pixel ... */
  function LumaCell(f: Frame, x: nat, y: nat): (k: nat)
    requires Drawable(f) && x < f.fw && y < f.fh
    ensures k < CELLS
  {
    PlaneFits(f, 0);
    CellBound(PlaneW(f, 0), f.fw, f.fh, x, y);
    y * PlaneW(f, 0) + x
  }

  lemma CellBound(pw: nat, w: nat, h: nat, x: nat, y: nat)
    requires pw <= w <= JPEG_MAX_W && x < w && y < h <= JPEG_MAX_H
    ensures y * pw + x < CELLS
  {
    IndexBound(y, x, h, w);
    MulMono(y, pw, w);
    MulMono(h, w, JPEG_MAX_W);
    MulMono(JPEG_MAX_W, h, JPEG_MAX_H);
  }

  /** ... and of the sample of component `c` it lies in. */
  function OwnCell(f: Frame, c: nat, x: nat, y: nat): (k: nat)
    requires Drawable(f) && c < |f.comps| && x < f.fw && y < f.fh
    ensures k < PlaneH(f, c) * PlaneW(f, c) <= CELLS
  {
    var hm, vm := MaxH(f.comps), MaxV(f.comps);
    ScaledUsed(f.fw, f.comps[c].h, hm, x);
    ScaledUsed(f.fh, f.comps[c].v, vm, y);
    PlaneFits(f, c);
    IndexBound(Coarse(y, f.comps[c].v, vm), Coarse(x, f.comps[c].h, hm), PlaneH(f, c), PlaneW(f, c));
    Coarse(y, f.comps[c].v, vm) * PlaneW(f, c) + Coarse(x, f.comps[c].h, hm)
  }

  function Pack(r: byte, g: byte, b: byte): Argb {
    0xFF00_0000 + r * 0x1_0000 + g * 0x100 + b
  }

  function Coloured(y: real, u: real, v: real): Argb {
    Pack(Clamp(Trunc(RedOf(y, v))), Clamp(Trunc(GreenOf(y, u, v))), Clamp(Trunc(BlueOf(y, u))))
  }

  /** Pixel (x, y) of the picture that three planes show. */
  function PixelOf(f: Frame, p0: seq<real>, p1: seq<real>, p2: seq<real>, x: nat, y: nat): Argb
    requires Drawable(f) && |p0| == |p1| == |p2| == CELLS && x < f.fw && y < f.fh
  {
    var s := p0[LumaCell(f, x, y)];
    if |f.comps| == 1 then
      var v := Clamp(Trunc(s) + 128);
      Pack(v, v, v)
    else Coloured(s + 128.0, p1[OwnCell(f, 1, x, y)], p2[OwnCell(f, 2, x, y)])
  }

  // ----- which sample a pixel shows -----

  /** What a plane holds for the sample a pixel lies in. */
  lemma OwnSample(f: Frame, planes: map<Visit, seq<int>>, c: nat, p: seq<real>, x: nat, y: nat)
    requires Drawable(f) && c < |f.comps| && x < f.fw && y < f.fh
    requires Filled(planes, c, PlaneW(f, c), PlaneH(f, c), p)
    ensures p[OwnCell(f, c, x, y)]
         == SampleOf(planes, c, Coarse(x, f.comps[c].h, MaxH(f.comps)), Coarse(y, f.comps[c].v, MaxV(f.comps)))
  {
    hide MaxH, MaxV, SampleOf, Scaled, Coarse;
    var sx, sy := Coarse(x, f.comps[c].h, MaxH(f.comps)), Coarse(y, f.comps[c].v, MaxV(f.comps));
    ScaledUsed(f.fw, f.comps[c].h, MaxH(f.comps), x);
    ScaledUsed(f.fh, f.comps[c].v, MaxV(f.comps), y);
    GridIndex(sy, sx, PlaneW(f, c));
  }

  /** Each sample of a plane lies in a block of the frame's MCUs, so none is left cleared. */
  lemma PlaneCovered(f: Frame, c: nat, x: nat, y: nat)
    requires f.Valid() && c < |f.comps| && x < PlaneW(f, c) && y < PlaneH(f, c)
    ensures InFrame(f, Visit(c, y / 8, x / 8))
  {
    hide MaxH, MaxV, Scaled, Mcus;
    ScaledCovered(f.fw, f.comps[c].h, MaxH(f.comps), x);
    ScaledCovered(f.fh, f.comps[c].v, MaxV(f.comps), y);
  }

  /** The first component has the highest rate, in a direction in which it matters. */
  predicate LumaFull(f: Frame)
    requires f.Valid()
  {
    && (f.comps[0].h == MaxH(f.comps) || f.fw == 1)
    && (f.comps[0].v == MaxV(f.comps) || f.fh == 1)
  }

  lemma ScaleSame(n: nat, max: nat, x: nat)
    requires 1 <= n <= max
    ensures n == max ==> Coarse(x, n, max) == x
    ensures x == 0 ==> Coarse(x, n, max) == 0
    ensures x == 1 && n < max ==> Coarse(x, n, max) == 0
  {
    if n == max {
      Halve(x, 0, max);
      assert max * x == x * n;
    }
  }

  /** Every pixel is drawn with its own luma sample if and only if luma has the highest rate. */
  lemma LumaOwnIff(f: Frame)
    requires Drawable(f)
    ensures (forall x: nat, y: nat :: x < f.fw && y < f.fh ==> LumaCell(f, x, y) == OwnCell(f, 0, x, y))
            <==> LumaFull(f)
  {
    hide MaxH, MaxV, Scaled, Coarse, LumaCell, OwnCell;
    var h, v := f.comps[0].h, f.comps[0].v;
    if LumaFull(f) {
      forall x: nat, y: nat | x < f.fw && y < f.fh
        ensures LumaCell(f, x, y) == OwnCell(f, 0, x, y)
      {
        LumaAt(f, x, y);
        ScaleSame(h, MaxH(f.comps), x);
        ScaleSame(v, MaxV(f.comps), y);
      }
    } else if h < MaxH(f.comps) && f.fw > 1 {
      LumaAt(f, 1, 0);
      ScaleSame(h, MaxH(f.comps), 1);
      ScaleSame(v, MaxV(f.comps), 0);
    } else {
      LumaAt(f, 0, 1);
      ScaleSame(h, MaxH(f.comps), 0);
      ScaleSame(v, MaxV(f.comps), 1);
      PlaneFits(f, 0);
    }
  }

  lemma LumaAt(f: Frame, x: nat, y: nat)
    requires Drawable(f) && x < f.fw && y < f.fh
    ensures LumaCell(f, x, y) == y * PlaneW(f, 0) + x
    ensures OwnCell(f, 0, x, y)
         == Coarse(y, f.comps[0].v, MaxV(f.comps)) * PlaneW(f, 0) + Coarse(x, f.comps[0].h, MaxH(f.comps))
  {
  }

  /** Two pixels side by side, with luma at half the rate of chroma. */
  const SKEWED := Frame(2, 1, [Comp(1, 1, 1, 0), Comp(2, 2, 1, 1), Comp(3, 2, 1, 1)])

  lemma SkewedRates()
    ensures MaxH(SKEWED.comps) == 2 && MaxV(SKEWED.comps) == 1
  {
    var one, two := [Comp(1, 1, 1, 0)], [Comp(1, 1, 1, 0), Comp(2, 2, 1, 1)];
    assert one[..0] == [] && MaxH(one) == 1 && MaxV(one) == 1;
    assert two[..1] == one && MaxH(two) == 2 && MaxV(two) == 1;
    assert SKEWED.comps[..2] == two;
  }

  /** The second is drawn with a cell that is not in the luma plane. */
  lemma LumaOutside()
    ensures Drawable(SKEWED) && !LumaFull(SKEWED) && PlaneW(SKEWED, 0) == PlaneH(SKEWED, 0) == 1
    ensures OwnCell(SKEWED, 0, 1, 0) == 0 && LumaCell(SKEWED, 1, 0) == 1
  {
    hide MaxH, MaxV, OwnCell, LumaCell;
    SkewedRates();
    LumaAt(SKEWED, 1, 0);
  }

  // ----- from pixels to pixels -----

  /** How far samples of component `c` may be off. */
  function Slack(c: nat, quality: int): real {
    AllSteps(JpegSamples.StepsOf(c, quality), 8) / 8.0 + 0.000002
  }

  /** Every sample of the decoded planes is near the one of the bitmap. */
  ghost predicate SamplesNear(planes: map<Visit, seq<int>>, px: Bitmap, w: nat, h: nat, quality: int)
    requires JpegPixels.Holds(px, w, h)
  {
    forall c: nat, x: nat, y: nat :: c < 3 && Pixel(c, x) < w && Pixel(c, y) < h ==>
      -Slack(c, quality) <= SampleOf(planes, c, x, y) - (Sample(px, c, x, y) - 128.0) <= Slack(c, quality)
  }

  lemma BlockHas(px: Bitmap, w: Dim, h: Dim, c: nat, x: nat, y: nat)
    requires DimsOk(w, h) && JpegPixels.Holds(px, w, h) && c < 3 && Pixel(c, x) < w && Pixel(c, y) < h
    ensures PictureOf(px, w / 16, h / 16).Has(Visit(c, y / 8, x / 8))
    ensures BlockIn(px, c, y / 8, x / 8)
    ensures BlockOf(px, c, y / 8, x / 8)[y % 8 * 8 + x % 8] == Sample(px, c, x, y) - 128.0
  {
    hide Sample, PictureOf;
    var i := y % 8 * 8 + x % 8;
    assert i / 8 == y % 8 && i % 8 == x % 8;
    assert 8 * (x / 8) + i % 8 == x && 8 * (y / 8) + i / 8 == y;
  }

  lemma BitmapPlanes(w: Dim, h: Dim, px: Bitmap, quality: int, qt: QTabs, tabs: Tabs, o: Opts)
    requires DimsOk(w, h) && JpegPixels.Holds(px, w, h) && tabs.Valid() && !o.probe && SizeOk(w, h, o)
    ensures var r := DecodeFile(Encoded(w, h, px, quality), qt, tabs, o);
            r.Done? && r.frame == Frame(w, h, COMPS_420) && SamplesNear(r.planes, px, w, h, quality)
  {
    hide DecodeFile, Encoded, SizeOk, PictureOf, Inverse, AllSteps, JpegSamples.StepsOf, Sample, BlockOf, Approximates;
    var r := DecodeFile(Encoded(w, h, px, quality), qt, tabs, o);
    BitmapRoundTrip(w, h, px, quality, qt, tabs, o);
    forall c: nat, x: nat, y: nat | c < 3 && Pixel(c, x) < w && Pixel(c, y) < h
      ensures -Slack(c, quality) <= SampleOf(r.planes, c, x, y) - (Sample(px, c, x, y) - 128.0) <= Slack(c, quality)
    {
      BlockHas(px, w, h, c, x, y);
      BitmapSamples(w, h, px, quality, qt, tabs, o, Visit(c, y / 8, x / 8), y % 8 * 8 + x % 8);
    }
  }

  /** The channels of two pixels differ by at most `e`. */
  predicate Alike(a: Argb, b: Argb, e: real) {
    && -e <= (Red(a) - Red(b)) as real <= e
    && -e <= (Green(a) - Green(b)) as real <= e
    && -e <= (Blue(a) - Blue(b)) as real <= e
  }

  lemma ColouredChannels(y: real, u: real, v: real)
    ensures Red(Coloured(y, u, v)) == Clamp(Trunc(RedOf(y, v)))
    ensures Green(Coloured(y, u, v)) == Clamp(Trunc(GreenOf(y, u, v)))
    ensures Blue(Coloured(y, u, v)) == Clamp(Trunc(BlueOf(y, u)))
  {
    Channels(Clamp(Trunc(RedOf(y, v))), Clamp(Trunc(GreenOf(y, u, v))), Clamp(Trunc(BlueOf(y, u))), 255);
  }

  /** A pixel converted and converted back loses at most one of each channel. */
  lemma ColouredBack(p: Argb)
    ensures var m := Coloured(Luma(p), ChromaB(p) - 128.0, ChromaR(p) - 128.0);
            && Red(p) - 1 <= Red(m) <= Red(p) && Green(p) - 1 <= Green(m) <= Green(p)
            && Blue(p) - 1 <= Blue(m) <= Blue(p)
  {
    hide Red, Green, Blue, Luma, ChromaB, ChromaR, Coloured;
    ColouredChannels(Luma(p), ChromaB(p) - 128.0, ChromaR(p) - 128.0);
    ColourInverse(p);
    hide RedOf, GreenOf, BlueOf;
  }

  /** Samples that are off by little give a colour that is off by little. */
  lemma ColouredGap(y: real, u: real, v: real, y': real, u': real, v': real, el: real, ec: real)
    requires -el <= y - y' <= el && -ec <= u - u' <= ec && -ec <= v - v' <= ec
    ensures Alike(Coloured(y, u, v), Coloured(y', u', v'), el + 2.0 * ec + 1.0)
  {
    hide Red, Green, Blue, Coloured, Clamp, Trunc;
    ColouredChannels(y, u, v);
    ColouredChannels(y', u', v');
    ClampGap(RedOf(y, v), RedOf(y', v'), el + 2.0 * ec);
    ClampGap(GreenOf(y, u, v), GreenOf(y', u', v'), el + 2.0 * ec);
    ClampGap(BlueOf(y, u), BlueOf(y', u'), el + 2.0 * ec);
  }

  /** The same from the samples of a pixel. */
  lemma ColouredNear(p: Argb, y: real, u: real, v: real, el: real, ec: real)
    requires -el <= y - Luma(p) <= el
    requires -ec <= u - (ChromaB(p) - 128.0) <= ec && -ec <= v - (ChromaR(p) - 128.0) <= ec
    ensures Alike(Coloured(y, u, v), p, el + 2.0 * ec + CLOSE + 1.0)
  {
    hide Red, Green, Blue, Luma, ChromaB, ChromaR, Coloured, Clamp, Trunc;
    ColourInverse(p);
    ColouredChannels(y, u, v);
    ClampNear(RedOf(y, v), Red(p), el + 2.0 * ec + CLOSE);
    ClampNear(GreenOf(y, u, v), Green(p), el + 2.0 * ec + CLOSE);
    ClampNear(BlueOf(y, u), Blue(p), el + 2.0 * ec + CLOSE);
  }

  /** The three buffers hold the planes of a frame. */
  ghost predicate AllFilled(f: Frame, planes: map<Visit, seq<int>>, p0: seq<real>, p1: seq<real>, p2: seq<real>)
    requires |f.comps| == 3
  {
    && |p0| == |p1| == |p2| == CELLS
    && Filled(planes, 0, PlaneW(f, 0), PlaneH(f, 0), p0)
    && Filled(planes, 1, PlaneW(f, 1), PlaneH(f, 1), p1)
    && Filled(planes, 2, PlaneW(f, 2), PlaneH(f, 2), p2)
  }

  lemma Rates420()
    ensures MaxH(COMPS_420) == 2 && MaxV(COMPS_420) == 2
  {
    var one, two := [Comp(1, 2, 2, 0)], [Comp(1, 2, 2, 0), Comp(2, 1, 1, 1)];
    assert one[..0] == [] && MaxH(one) == 2 && MaxV(one) == 2;
    assert two[..1] == one && MaxH(two) == 2 && MaxV(two) == 2;
    assert COMPS_420[..2] == two;
  }

  /** The samples a pixel is drawn with when luma has the highest rate. */
  lemma PixelShows(f: Frame, planes: map<Visit, seq<int>>, p0: seq<real>, p1: seq<real>, p2: seq<real>, x: nat, y: nat)
    requires Drawable(f) && |f.comps| == 3 && AllFilled(f, planes, p0, p1, p2) && LumaFull(f) && x < f.fw && y < f.fh
    ensures var hm, vm := MaxH(f.comps), MaxV(f.comps);
            PixelOf(f, p0, p1, p2, x, y)
            == Coloured(SampleOf(planes, 0, x, y) + 128.0,
                        SampleOf(planes, 1, Coarse(x, f.comps[1].h, hm), Coarse(y, f.comps[1].v, vm)),
                        SampleOf(planes, 2, Coarse(x, f.comps[2].h, hm), Coarse(y, f.comps[2].v, vm)))
  {
    hide Filled, SampleOf, PlaneW, PlaneH, LumaCell, OwnCell, MaxH, MaxV, Coloured, Coarse;
    LumaOwnIff(f);
    assert LumaCell(f, x, y) == OwnCell(f, 0, x, y);
    OwnSample(f, planes, 0, p0, x, y);
    OwnSample(f, planes, 1, p1, x, y);
    OwnSample(f, planes, 2, p2, x, y);
    ScaleSame(f.comps[0].h, MaxH(f.comps), x);
    ScaleSame(f.comps[0].v, MaxV(f.comps), y);
  }

  /** A pixel of a picture of one component: opaque, and as grey as its sample says. */
  lemma GreyShows(f: Frame, planes: map<Visit, seq<int>>, p0: seq<real>, p1: seq<real>, p2: seq<real>, x: nat, y: nat)
    requires Drawable(f) && |f.comps| == 1 && |p0| == |p1| == |p2| == CELLS && x < f.fw && y < f.fh
    requires Filled(planes, 0, PlaneW(f, 0), PlaneH(f, 0), p0)
    ensures var s, g := SampleOf(planes, 0, x, y) + 128.0, PixelOf(f, p0, p1, p2, x, y);
            && Red(g) == Green(g) == Blue(g)
            && (0.0 <= s <= 255.0 ==> -1.0 < Red(g) as real - s < 1.0)
            && (s < 0.0 ==> Red(g) == 0) && (s > 255.0 ==> Red(g) == 255)
  {
    hide Filled, SampleOf, PlaneW, PlaneH, LumaCell, OwnCell, MaxH, MaxV, Coarse, Red, Green, Blue;
    MaxIs(f.comps);
    LumaOwnIff(f);
    assert LumaCell(f, x, y) == OwnCell(f, 0, x, y);
    OwnSample(f, planes, 0, p0, x, y);
    ScaleSame(f.comps[0].h, MaxH(f.comps), x);
    ScaleSame(f.comps[0].v, MaxV(f.comps), y);
    var v := Clamp(Trunc(SampleOf(planes, 0, x, y)) + 128);
    Channels(v, v, v, 255);
  }

  /** Pixel (x, y) of the picture has the luma of the bitmap's and the chroma of the upper left one of its four,
      up to what quantisation does; where those two are the same it is near the pixel itself. */
  predicate Reproduced(f: Frame, px: Bitmap, quality: int, p0: seq<real>, p1: seq<real>, p2: seq<real>, x: nat, y: nat)
    requires Drawable(f) && |p0| == |p1| == |p2| == CELLS && x < f.fw && y < f.fh && JpegPixels.Holds(px, f.fw, f.fh)
  {
    var p, q := px[y][x], px[y / 2 * 2][x / 2 * 2];
    var g, e := PixelOf(f, p0, p1, p2, x, y), Slack(0, quality) + 2.0 * Slack(1, quality);
    && Alike(g, Coloured(Luma(p), ChromaB(q) - 128.0, ChromaR(q) - 128.0), e + 1.0)
    && (p == q ==> Alike(g, p, e + CLOSE + 1.0))
  }

  lemma NearReproduced(w: nat, h: nat, px: Bitmap, quality: int, planes: map<Visit, seq<int>>,
                       p0: seq<real>, p1: seq<real>, p2: seq<real>, x: nat, y: nat)
    requires Drawable(Frame(w, h, COMPS_420)) && AllFilled(Frame(w, h, COMPS_420), planes, p0, p1, p2)
    requires x < w && y < h && JpegPixels.Holds(px, w, h) && SamplesNear(planes, px, w, h, quality)
    ensures Reproduced(Frame(w, h, COMPS_420), px, quality, p0, p1, p2, x, y)
  {
    hide AllFilled, Alike, PixelOf, Coloured, SampleOf, Slack, SamplesNear, Luma, ChromaB, ChromaR, MaxH, MaxV;
    Rates420();
    PixelShows(Frame(w, h, COMPS_420), planes, p0, p1, p2, x, y);
    SamplesAt(w, h, px, quality, planes, x, y);
    var p, q := px[y][x], px[y / 2 * 2][x / 2 * 2];
    var s0, s1, s2 := SampleOf(planes, 0, x, y), SampleOf(planes, 1, x / 2, y / 2), SampleOf(planes, 2, x / 2, y / 2);
    var el, ec := Slack(0, quality), Slack(1, quality);
    ColouredGap(s0 + 128.0, s1, s2, Luma(p), ChromaB(q) - 128.0, ChromaR(q) - 128.0, el, ec);
    if p == q {
      ColouredNear(p, s0 + 128.0, s1, s2, el, ec);
    }
  }

  /** The samples of a pixel are near those of the bitmap. */
  lemma SamplesAt(w: nat, h: nat, px: Bitmap, quality: int, planes: map<Visit, seq<int>>, x: nat, y: nat)
    requires x < w && y < h && JpegPixels.Holds(px, w, h) && SamplesNear(planes, px, w, h, quality)
    ensures var p, q := px[y][x], px[y / 2 * 2][x / 2 * 2];
            var el, ec := Slack(0, quality), Slack(1, quality);
            && -el <= SampleOf(planes, 0, x, y) - (Luma(p) - 128.0) <= el
            && -ec <= SampleOf(planes, 1, x / 2, y / 2) - (ChromaB(q) - 128.0) <= ec
            && -ec <= SampleOf(planes, 2, x / 2, y / 2) - (ChromaR(q) - 128.0) <= ec
  {
    hide SampleOf, Slack, Luma, ChromaB, ChromaR;
    SameSlack(quality);
  }

  /** Every bitmap of a size both sides accept, at every quality, whatever tables earlier files left: the
      decoder's pictures of the encoder's file reproduce each of its pixels. */
  lemma BitmapPixels(w: Dim, h: Dim, px: Bitmap, quality: int, qt: QTabs, tabs: Tabs, o: Opts)
    requires DimsOk(w, h) && JpegPixels.Holds(px, w, h) && tabs.Valid() && !o.probe && SizeOk(w, h, o)
    ensures var r := DecodeFile(Encoded(w, h, px, quality), qt, tabs, o);
            && r.Done? && r.frame == Frame(w, h, COMPS_420) && Drawable(r.frame)
            && forall p0, p1, p2, x: nat, y: nat :: AllFilled(r.frame, r.planes, p0, p1, p2) && x < w && y < h ==>
                 Reproduced(r.frame, px, quality, p0, p1, p2, x, y)
  {
    hide DecodeFile, Encoded, Filled, Reproduced, SamplesNear;
    var r := DecodeFile(Encoded(w, h, px, quality), qt, tabs, o);
    BitmapPlanes(w, h, px, quality, qt, tabs, o);
    forall p0, p1, p2, x: nat, y: nat | AllFilled(r.frame, r.planes, p0, p1, p2) && x < w && y < h
      ensures Reproduced(r.frame, px, quality, p0, p1, p2, x, y)
    {
      NearReproduced(w, h, px, quality, r.planes, p0, p1, p2, x, y);
    }
  }

  lemma SameSlack(quality: int)
    ensures Slack(2, quality) == Slack(1, quality)
  {
  }

  // ----- the decoder's loops -----

  /** Clears the first `n` cells. */
  method Clear(plane: array<real>, n: nat)
    requires n <= plane.Length
    modifies plane
    ensures forall k :: 0 <= k < plane.Length ==> plane[k] == if k < n then 0.0 else old(plane[k])
  {
    for i := 0 to n
      invariant forall k :: 0 <= k < plane.Length ==> plane[k] == if k < i then 0.0 else old(plane[k])
    {
      plane[i] := 0.0;
    }
  }

  /** Block (row, col) has been stored up to its sample (x, y). */
  ghost predicate Stored(was: seq<real>, now: seq<real>, blk: seq<real>, pw: nat, ph: nat, row: nat, col: nat,
                         y: nat, x: nat)
    requires |blk| == 64 && pw >= 1 && ph * pw <= |was| == |now|
  {
    forall k: nat :: k < |was| ==>
      var ky, kx := k / pw, k % pw;
      now[k] == if k < ph * pw && ky / 8 == row && kx / 8 == col && (ky % 8 < y || (ky % 8 == y && kx % 8 < x))
                then blk[ky % 8 * 8 + kx % 8] else was[k]
  }

  lemma StoredCell(was: seq<real>, now: seq<real>, blk: seq<real>, pw: nat, ph: nat, row: nat, col: nat,
                   y: nat, x: nat)
    requires |blk| == 64 && pw >= 1 && ph * pw <= |was| == |now| && y < 8 && x < 8
    requires Stored(was, now, blk, pw, ph, row, col, y, x)
    ensures var py, px := row * 8 + y, col * 8 + x;
            if py < ph && px < pw
            then py * pw + px < ph * pw
                 && Stored(was, now[py * pw + px := blk[y * 8 + x]], blk, pw, ph, row, col, y, x + 1)
            else Stored(was, now, blk, pw, ph, row, col, y, x + 1)
  {
    var py, px := row * 8 + y, col * 8 + x;
    if py < ph && px < pw {
      IndexBound(py, px, ph, pw);
      GridIndex(py, px, pw);
    }
    forall k: nat | k < |was| && k < ph * pw
      ensures k / pw < ph && k % pw < pw && k == k / pw * pw + k % pw
    {
      GridBound(k, ph, pw);
    }
  }

  /** Copies a block to its place in a plane, leaving out what does not lie in it. */
  method StoreBlock(plane: array<real>, pw: nat, ph: nat, row: nat, col: nat, blk: array<real>)
    requires blk.Length == 64 && blk != plane && pw >= 1 && ph * pw <= plane.Length
    modifies plane
    ensures Stored(old(plane[..]), plane[..], blk[..], pw, ph, row, col, 8, 0)
  {
    hide Stored;
    ghost var was := plane[..];
    StoredNone(was, blk[..], pw, ph, row, col);
    for y := 0 to 8
      invariant Stored(was, plane[..], blk[..], pw, ph, row, col, y, 0)
    {
      var py := row * 8 + y;
      if py < ph {
        for x := 0 to 8
          invariant Stored(was, plane[..], blk[..], pw, ph, row, col, y, x)
        {
          var px := col * 8 + x;
          StoredCell(was, plane[..], blk[..], pw, ph, row, col, y, x);
          if px < pw {
            ghost var now := plane[..];
            plane[py * pw + px] := blk[y * 8 + x];
            assert plane[..] == now[py * pw + px := blk[y * 8 + x]];
          }
        }
        StoredRow(was, plane[..], blk[..], pw, ph, row, col, y);
      } else {
        StoredPast(was, plane[..], blk[..], pw, ph, row, col, y);
      }
    }
  }

  lemma StoredNone(was: seq<real>, blk: seq<real>, pw: nat, ph: nat, row: nat, col: nat)
    requires |blk| == 64 && pw >= 1 && ph * pw <= |was|
    ensures Stored(was, was, blk, pw, ph, row, col, 0, 0)
  {
  }

  lemma StoredRow(was: seq<real>, now: seq<real>, blk: seq<real>, pw: nat, ph: nat, row: nat, col: nat, y: nat)
    requires |blk| == 64 && pw >= 1 && ph * pw <= |was| == |now|
    requires Stored(was, now, blk, pw, ph, row, col, y, 8)
    ensures Stored(was, now, blk, pw, ph, row, col, y + 1, 0)
  {
  }

  lemma StoredPast(was: seq<real>, now: seq<real>, blk: seq<real>, pw: nat, ph: nat, row: nat, col: nat, y: nat)
    requires |blk| == 64 && pw >= 1 && ph * pw <= |was| == |now| && row * 8 + y >= ph
    requires Stored(was, now, blk, pw, ph, row, col, y, 0)
    ensures Stored(was, now, blk, pw, ph, row, col, y + 1, 0)
  {
    forall k: nat | k < ph * pw
      ensures k / pw < ph
    {
      GridBound(k, ph, pw);
    }
  }

  /** The blocks before (row, col) are in the plane, the other samples are cleared. */
  ghost predicate Painted(planes: map<Visit, seq<int>>, c: nat, pw: nat, ph: nat, p: seq<real>, row: nat, col: nat) {
    && pw >= 1 && ph * pw <= |p|
    && forall k: nat :: k < ph * pw ==>
         var ky, kx := k / pw, k % pw;
         p[k] == if ky / 8 < row || (ky / 8 == row && kx / 8 < col) then SampleOf(planes, c, kx, ky) else 0.0
  }

  lemma PaintedNext(planes: map<Visit, seq<int>>, c: nat, pw: nat, ph: nat, was: seq<real>, now: seq<real>,
                    row: nat, col: nat)
    requires Painted(planes, c, pw, ph, was, row, col) && |was| == |now|
    requires var v := Visit(c, row, col);
             if v in planes && |planes[v]| == 64
             then Stored(was, now, Inverse(Reals(planes[v])), pw, ph, row, col, 8, 0) else now == was
    ensures Painted(planes, c, pw, ph, now, row, col + 1)
  {
    hide Inverse;
  }

  lemma PaintedRow(planes: map<Visit, seq<int>>, c: nat, pw: nat, ph: nat, p: seq<real>, row: nat, cols: nat)
    requires Painted(planes, c, pw, ph, p, row, cols) && forall x: nat :: x < pw ==> x / 8 < cols
    ensures Painted(planes, c, pw, ph, p, row + 1, 0)
  {
    hide SampleOf;
  }

  lemma PaintedAll(planes: map<Visit, seq<int>>, c: nat, pw: nat, ph: nat, p: seq<real>, rows: nat)
    requires Painted(planes, c, pw, ph, p, rows, 0) && forall y: nat :: y < ph ==> y / 8 < rows
    ensures Filled(planes, c, pw, ph, p)
  {
    hide SampleOf;
    forall k: nat | k < ph * pw
      ensures k / pw < ph
    {
      GridBound(k, ph, pw);
    }
  }

  lemma PaintedNone(planes: map<Visit, seq<int>>, c: nat, pw: nat, ph: nat, p: seq<real>)
    requires pw >= 1 && ph * pw <= |p| && forall k :: 0 <= k < ph * pw ==> p[k] == 0.0
    ensures Painted(planes, c, pw, ph, p, 0, 0)
  {
    hide SampleOf;
  }

  /** One block: inverse transform and copy. */
  method DrawBlock(planes: map<Visit, seq<int>>, c: nat, pw: nat, ph: nat, row: nat, col: nat, plane: array<real>)
    requires Painted(planes, c, pw, ph, plane[..], row, col)
    modifies plane
    ensures Painted(planes, c, pw, ph, plane[..], row, col + 1)
  {
    hide Stored, Painted, Inverse;
    PaintedSize(planes, c, pw, ph, plane[..], row, col);
    ghost var was := plane[..];
    var v := Visit(c, row, col);
    if v in planes && |planes[v]| == 64 {
      var b := planes[v];
      var d := new real[64](i requires 0 <= i < 64 => b[i] as real);
      assert d[..] == Reals(b);
      var blk := Idct(d);
      StoreBlock(plane, pw, ph, row, col, blk);
    }
    PaintedNext(planes, c, pw, ph, was, plane[..], row, col);
  }

  lemma PaintedSize(planes: map<Visit, seq<int>>, c: nat, pw: nat, ph: nat, p: seq<real>, row: nat, col: nat)
    requires Painted(planes, c, pw, ph, p, row, col)
    ensures pw >= 1 && ph * pw <= |p|
  {
  }

  /** Fills the plane of component `c`. */
  method DrawPlane(f: Frame, planes: map<Visit, seq<int>>, c: nat, plane: array<real>)
    requires Drawable(f) && c < |f.comps| && plane.Length == CELLS
    modifies plane
    ensures Filled(planes, c, PlaneW(f, c), PlaneH(f, c), plane[..])
  {
    hide MaxH, MaxV, Scaled, Mcus, Painted, Filled;
    var pw, ph := PlaneW(f, c), PlaneH(f, c);
    PlaneFits(f, c);
    Clear(plane, ph * pw);
    PaintedNone(planes, c, pw, ph, plane[..]);
    var cols, rows := Mcus(f.fw, MaxH(f.comps)) * f.comps[c].h, Mcus(f.fh, MaxV(f.comps)) * f.comps[c].v;
    for row := 0 to rows
      invariant Painted(planes, c, pw, ph, plane[..], row, 0)
    {
      for col := 0 to cols
        invariant Painted(planes, c, pw, ph, plane[..], row, col)
      {
        DrawBlock(planes, c, pw, ph, row, col, plane);
      }
      forall x: nat | x < pw
        ensures x / 8 < cols
      {
        ScaledCovered(f.fw, f.comps[c].h, MaxH(f.comps), x);
      }
      PaintedRow(planes, c, pw, ph, plane[..], row, cols);
    }
    forall y: nat | y < ph
      ensures y / 8 < rows
    {
      ScaledCovered(f.fh, f.comps[c].v, MaxV(f.comps), y);
    }
    PaintedAll(planes, c, pw, ph, plane[..], rows);
  }

  /** One pixel. */
  method DrawPixel(f: Frame, p0: array<real>, p1: array<real>, p2: array<real>, x: nat, y: nat) returns (p: Argb)
    requires Drawable(f) && p0.Length == p1.Length == p2.Length == CELLS && x < f.fw && y < f.fh
    ensures p == PixelOf(f, p0[..], p1[..], p2[..], x, y)
  {
    hide LumaCell, OwnCell, Clamp, Trunc, Pack, RedOf, GreenOf, BlueOf;
    if |f.comps| == 1 {
      var v := Clamp(Trunc(p0[LumaCell(f, x, y)]) + 128);
      p := Pack(v, v, v);
    } else {
      var l := p0[LumaCell(f, x, y)] + 128.0;
      var u := p1[OwnCell(f, 1, x, y)];
      var v := p2[OwnCell(f, 2, x, y)];
      var r, g, b := RedOf(l, v), GreenOf(l, u, v), BlueOf(l, u);
      p := Pack(Clamp(Trunc(r)), Clamp(Trunc(g)), Clamp(Trunc(b)));
    }
  }

  /** Draws the picture at the upper left of `out`. */
  method Render(f: Frame, p0: array<real>, p1: array<real>, p2: array<real>, out: array2<Argb>)
    requires Drawable(f) && p0.Length == p1.Length == p2.Length == CELLS
    requires f.fh <= out.Length0 && f.fw <= out.Length1
    modifies out
    ensures forall y: nat, x: nat :: y < out.Length0 && x < out.Length1 ==>
              out[y, x] == if y < f.fh && x < f.fw then PixelOf(f, p0[..], p1[..], p2[..], x, y) else old(out[y, x])
  {
    hide PixelOf;
    for y := 0 to f.fh
      invariant forall j: nat, i: nat :: j < out.Length0 && i < out.Length1 ==>
                  out[j, i] == if j < y && i < f.fw then PixelOf(f, p0[..], p1[..], p2[..], i, j) else old(out[j, i])
    {
      for x := 0 to f.fw
        invariant forall j: nat, i: nat :: j < out.Length0 && i < out.Length1 ==>
                    out[j, i] == if (j < y && i < f.fw) || (j == y && i < x)
                                 then PixelOf(f, p0[..], p1[..], p2[..], i, j) else old(out[j, i])
      {
        var p := DrawPixel(f, p0, p1, p2, x, y);
        out[y, x] := p;
      }
    }
  }

  // ----- the whole decoder -----

  /** The size a picture may have: what the caller gives, where that is positive, and what the planes hold. */
  function Limit(given: int, max: nat): nat { if 0 < given < max then given else max }

  lemma SizeOkIff(w: nat, h: nat, o: Opts)
    ensures SizeOk(w, h, o) <==> w <= Limit(o.maxW, 1280) && h <= Limit(o.maxH, 800)
  {
  }

  /** A frame is of accepted size. */
  predicate FrameOk(f: Option<Frame>, o: Opts) {
    f.None? || (f.value.Valid() && SizeOk(f.value.fw, f.value.fh, o))
  }

  lemma {:induction false} RunFrame(d: seq<byte>, st: State, o: Opts)
    requires st.Valid() && FrameOk(st.frame, o)
    ensures Run(d, st, o).Done? ==> FrameOk(Some(Run(d, st, o).frame), o)
    decreases |d|, 0
  {
    hide Segment, SizeOk;
    var m := Skip(d);
    if m.Some? {
      SegmentFrame(m.value.0, m.value.1, st, o);
    }
  }

  lemma {:induction false} SegmentFrame(m: byte, d: seq<byte>, st: State, o: Opts)
    requires st.Valid() && FrameOk(st.frame, o)
    ensures Segment(m, d, st, o).Done? ==> FrameOk(Some(Segment(m, d, st, o).frame), o)
    decreases |d|, 1
  {
    hide Run, DqtBody, DhtBody, Sos, Scan;
    if m == 0xDB && SegLen(d).Some? {
      var r := DqtBody(SegLen(d).value.1, SegLen(d).value.0, st.qt);
      if r.Some? {
        RunFrame(r.value.0, st.(qt := r.value.1), o);
      }
    } else if m == 0xC4 && SegLen(d).Some? {
      var r := DhtBody(SegLen(d).value.1, SegLen(d).value.0, st.tabs);
      if r.Some? {
        RunFrame(r.value.0, st.(tabs := r.value.1), o);
      }
    } else if 0xC0 <= m <= 0xC2 {
      SofFrame(d, o);
      var r := Sof(d, o);
      if r.Some? {
        RunFrame(r.value.0, st.(frame := Some(r.value.1)), o);
      }
    } else if m == 0xDA && st.frame.Some? {
      var r := Sos(d, |st.frame.value.comps|);
      if r.Some? && !o.probe {
        ScanFrame(r.value, st);
        var s := Scan(r.value, st);
        if s.Some? {
          RunFrame(r.value, s.value, o);
        }
      }
    } else if (0xE0 <= m <= 0xEF || m == 0xFE) && SegLen(d).Some? {
      var l := SegLen(d).value;
      if l.0 <= |l.1| {
        RunFrame(l.1[l.0..], st, o);
      }
    } else if m == 0x01 || 0xD0 <= m <= 0xD7 {
      RunFrame(d, st, o);
    }
  }

  lemma SofFrame(d: seq<byte>, o: Opts)
    ensures Sof(d, o).Some? ==> FrameOk(Some(Sof(d, o).value.1), o)
  {
    hide SizeOk;
  }

  lemma ScanFrame(d: seq<byte>, st: State)
    requires st.Valid() && st.frame.Some?
    ensures Scan(d, st).Some? ==> Scan(d, st).value.frame == st.frame
  {
  }

  /** Whatever is decoded has a frame of accepted size. */
  lemma DecodedFrame(d: seq<byte>, qt: QTabs, tabs: Tabs, o: Opts)
    requires tabs.Valid() && DecodeFile(d, qt, tabs, o).Done?
    ensures FrameOk(Some(DecodeFile(d, qt, tabs, o).frame), o)
  {
    hide Run, FrameOk;
    NoFrame(o);
    RunFrame(d[2..], State(qt, tabs, None, map[], false), o);
  }

  lemma NoFrame(o: Opts)
    ensures FrameOk(None, o)
  {
  }

  /** Decodes a file and draws it at the upper left of `out`, with the tables and planes left from earlier
      files. */
  method DecodePicture(dec: Decoder, data: seq<byte>, o: Opts, p0: array<real>, p1: array<real>, p2: array<real>,
                       out: array2<Argb>)
    returns (r: Result)
    requires dec.tabs.Valid() && p0 != p1 && p0 != p2 && p1 != p2
    requires p0.Length == p1.Length == p2.Length == CELLS
    requires Limit(o.maxW, 1280) <= out.Length1 && Limit(o.maxH, 800) <= out.Length0
    modifies dec, p0, p1, p2, out
    ensures dec.tabs.Valid() && r == DecodeFile(data, old(dec.qt), old(dec.tabs), o)
    ensures r.Done? && |r.frame.comps| == 3 ==> AllFilled(r.frame, r.planes, p0[..], p1[..], p2[..])
    ensures r.Done? && |r.frame.comps| == 1 ==>
              Filled(r.planes, 0, PlaneW(r.frame, 0), PlaneH(r.frame, 0), p0[..])
    ensures r.Done? && |r.frame.comps| != 2 ==>
              && Drawable(r.frame) && r.frame.fh <= out.Length0 && r.frame.fw <= out.Length1
              && forall y: nat, x: nat :: y < out.Length0 && x < out.Length1 ==>
                   out[y, x] == if y < r.frame.fh && x < r.frame.fw
                                then PixelOf(r.frame, p0[..], p1[..], p2[..], x, y) else old(out[y, x])
  {
    hide DecodeFile, Filled, PixelOf, PlaneW, PlaneH;
    r := dec.JpegDecode(data, o);
    if r.Done? && |r.frame.comps| != 2 {
      DecodedFrame(data, old(dec.qt), old(dec.tabs), o);
      SizeOkIff(r.frame.fw, r.frame.fh, o);
      DrawPlane(r.frame, r.planes, 0, p0);
      if |r.frame.comps| == 3 {
        DrawPlane(r.frame, r.planes, 1, p1);
        DrawPlane(r.frame, r.planes, 2, p2);
      }
      Render(r.frame, p0, p1, p2, out);
    }
  }
}
