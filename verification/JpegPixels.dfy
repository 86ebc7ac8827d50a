/** From pixels to coefficients: colour conversion, chroma subsampling, blocks and their transform. */
module JpegPixels {
  import opened Bits
  import opened JpegScan
  import opened JpegQuant
  import opened JpegDct

  type Argb = n: nat | n < 0x1_0000_0000 witness 0

  /** Rows of pixels; a row may be longer than the picture is wide. */
  type Bitmap = seq<seq<Argb>>

  predicate Holds(px: Bitmap, w: nat, h: nat) {
    |px| >= h && forall y :: 0 <= y < h ==> |px[y]| >= w
  }

  // ----- colours -----

  function Red(p: Argb): byte { p / 0x1_0000 % 256 }

  function Green(p: Argb): byte { p / 0x100 % 256 }

  function Blue(p: Argb): byte { p % 256 }

  function Luma(p: Argb): (s: real)
    ensures 0.0 <= s <= 255.0
  {
    var r, g, b := Red(p) as real, Green(p) as real, Blue(p) as real;
    0.299 * r + 0.587 * g + 0.114 * b
  }

  function ChromaB(p: Argb): (s: real)
    ensures 0.5 <= s <= 255.5
  {
    var r, g, b := Red(p) as real, Green(p) as real, Blue(p) as real;
    -0.168736 * r - 0.331264 * g + 0.5 * b + 128.0
  }

  function ChromaR(p: Argb): (s: real)
    ensures 0.5 <= s <= 255.5
  {
    var r, g, b := Red(p) as real, Green(p) as real, Blue(p) as real;
    0.5 * r - 0.418688 * g - 0.081312 * b + 128.0
  }

  // ----- planes and blocks -----

  /** The pixel coordinate that sample coordinate `n` of component `c` is taken at. */
  function Pixel(c: nat, n: nat): nat {
    if c == 0 then n else 2 * n
  }

  /** Sample (x, y) of component `c`. */
  function Sample(px: Bitmap, c: nat, x: nat, y: nat): (s: real)
    requires c < 3 && Pixel(c, y) < |px| && Pixel(c, x) < |px[Pixel(c, y)]|
    ensures 0.0 <= s <= 255.5
  {
    var p := px[Pixel(c, y)][Pixel(c, x)];
    if c == 0 then Luma(p) else if c == 1 then ChromaB(p) else ChromaR(p)
  }

  /** Block (row, col) of component `c` lies in the bitmap. */
  predicate BlockIn(px: Bitmap, c: nat, row: nat, col: nat) {
    c < 3 && Holds(px, Pixel(c, 8 * col + 8), Pixel(c, 8 * row + 8))
  }

  /** Its 64 samples, moved to around 0. */
  function BlockOf(px: Bitmap, c: nat, row: nat, col: nat): (b: seq<real>)
    requires BlockIn(px, c, row, col)
    ensures Centred(b)
    ensures forall k :: 0 <= k < 64 ==> b[k] == Sample(px, c, 8 * col + k % 8, 8 * row + k / 8) - 128.0
  {
    seq(64, k requires 0 <= k < 64 => Sample(px, c, 8 * col + k % 8, 8 * row + k / 8) - 128.0)
  }

  /** Coefficients that 8-bit samples can have. */
  ghost predicate Sampled(d: Dct) {
    -1024.0 <= d[0] <= 1023.0 && forall i :: 1 <= i < 64 ==> -1023.0 <= d[i] <= 1023.0
  }

  function DctOf(px: Bitmap, c: nat, row: nat, col: nat): (d: Dct)
    requires BlockIn(px, c, row, col)
    ensures Sampled(d) && d == Transform(BlockOf(px, c, row, col))
  {
    var b := BlockOf(px, c, row, col);
    var d := Transform(b);
    assert forall i :: 0 <= i < 64 ==> -1024.0 <= d[i] <= 1022.0 && (i > 0 ==> -1022.0 <= d[i]) by {
      forall i | 0 <= i < 64
        ensures -1024.0 <= d[i] <= 1022.0 && (i > 0 ==> -1022.0 <= d[i])
      {
        TransformRange(b, i);
      }
    }
    d
  }

  /** Block `k`, in row-major order, of a plane of `rows` by `cols` blocks. */
  function BlockAt(px: Bitmap, c: nat, rows: nat, cols: nat, k: nat): (d: Dct)
    requires c < 3 && Holds(px, Pixel(c, 8 * cols), Pixel(c, 8 * rows)) && k < rows * cols
    ensures Sampled(d)
  {
    GridBound(k, rows, cols);
    DctOf(px, c, k / cols, k % cols)
  }

  /** A plane of `rows` by `cols` blocks. */
  function PlaneOf(px: Bitmap, c: nat, rows: nat, cols: nat): (p: seq<Dct>)
    requires c < 3 && Holds(px, Pixel(c, 8 * cols), Pixel(c, 8 * rows))
    ensures |p| == rows * cols && forall k :: 0 <= k < |p| ==> p[k] == BlockAt(px, c, rows, cols, k) && Sampled(p[k])
  {
    seq(rows * cols, k requires 0 <= k < rows * cols => BlockAt(px, c, rows, cols, k))
  }

  lemma PlaneAt(px: Bitmap, c: nat, rows: nat, cols: nat, row: nat, col: nat)
    requires c < 3 && Holds(px, Pixel(c, 8 * cols), Pixel(c, 8 * rows)) && row < rows && col < cols
    ensures row * cols + col < rows * cols && BlockIn(px, c, row, col)
    ensures PlaneOf(px, c, rows, cols)[row * cols + col] == DctOf(px, c, row, col)
  {
    hide DctOf, BlockOf, Sampled, PlaneOf;
    var k := row * cols + col;
    IndexBound(row, col, rows, cols);
    GridIndex(row, col, cols);
    assert k / cols == row && k % cols == col;
    assert BlockIn(px, c, row, col);
  }

  ghost predicate AllSampled(pic: Planes<Dct>) {
    && (forall i :: 0 <= i < |pic.y| ==> Sampled(pic.y[i]))
    && (forall i :: 0 <= i < |pic.cb| ==> Sampled(pic.cb[i]))
    && (forall i :: 0 <= i < |pic.cr| ==> Sampled(pic.cr[i]))
  }

  /** What the encoder transforms a bitmap of `mw` by `mh` MCUs to. */
  function PictureOf(px: Bitmap, mw: nat, mh: nat): (pic: Planes<Dct>)
    requires Holds(px, 16 * mw, 16 * mh)
    ensures pic.Valid() && pic.mw == mw && pic.mh == mh && AllSampled(pic)
  {
    Planes(mw, mh, PlaneOf(px, 0, 2 * mh, 2 * mw), PlaneOf(px, 1, mh, mw), PlaneOf(px, 2, mh, mw))
  }

  // ----- the encoder's loops -----

  /** `plane` holds the `pw` by `ph` samples of component `c`. */
  ghost predicate IsPlane(px: Bitmap, c: nat, pw: nat, ph: nat, plane: array2<real>)
    reads plane
  {
    && c < 3 && Holds(px, Pixel(c, pw), Pixel(c, ph)) && plane.Length0 == ph && plane.Length1 == pw
    && forall y: nat, x: nat :: y < ph && x < pw ==> plane[y, x] == Sample(px, c, x, y)
  }

  /** The pixels before (x, y) in reading order have their samples in `plane`. */
  ghost predicate Filled(px: Bitmap, c: nat, y: nat, x: nat, plane: array2<real>)
    requires c < 3 && Holds(px, Pixel(c, plane.Length1), Pixel(c, plane.Length0))
    reads plane
  {
    forall j: nat, i: nat ::
      j < plane.Length0 && i < plane.Length1 && (Pixel(c, j) < y || (Pixel(c, j) == y && Pixel(c, i) < x)) ==>
        plane[j, i] == Sample(px, c, i, j)
  }

  method StoreSample(ghost px: Bitmap, ghost c: nat, i: nat, j: nat, plane: array2<real>, v: real)
    requires c < 3 && Holds(px, Pixel(c, plane.Length1), Pixel(c, plane.Length0))
    requires i < plane.Length1 && j < plane.Length0
    requires Filled(px, c, Pixel(c, j), Pixel(c, i), plane) && v == Sample(px, c, i, j)
    modifies plane
    ensures Filled(px, c, Pixel(c, j), Pixel(c, i) + 1, plane)
  {
    hide Sample;
    plane[j, i] := v;
  }

  lemma OffGrid(px: Bitmap, c: nat, x: nat, y: nat, plane: array2<real>)
    requires 0 < c < 3 && Holds(px, 2 * plane.Length1, 2 * plane.Length0) && (x % 2 != 0 || y % 2 != 0)
    requires Filled(px, c, y, x, plane)
    ensures Filled(px, c, y, x + 1, plane)
  {
    hide Sample;
  }

  /** Converts pixel (x, y). */
  method ConvertPixel(px: Bitmap, w: nat, h: nat, x: nat, y: nat, yp: array2<real>, cb: array2<real>, cr: array2<real>)
    requires Holds(px, 2 * w, 2 * h) && y < 2 * h && x < 2 * w && yp != cb && yp != cr && cb != cr
    requires yp.Length0 == 2 * h && yp.Length1 == 2 * w
    requires cb.Length0 == cr.Length0 == h && cb.Length1 == cr.Length1 == w
    requires Filled(px, 0, y, x, yp) && Filled(px, 1, y, x, cb) && Filled(px, 2, y, x, cr)
    modifies yp, cb, cr
    ensures Filled(px, 0, y, x + 1, yp) && Filled(px, 1, y, x + 1, cb) && Filled(px, 2, y, x + 1, cr)
  {
    hide Luma, ChromaB, ChromaR, Filled;
    var p := px[y][x];
    StoreSample(px, 0, x, y, yp, Luma(p));
    if y % 2 == 0 && x % 2 == 0 {
      StoreSample(px, 1, x / 2, y / 2, cb, ChromaB(p));
      StoreSample(px, 2, x / 2, y / 2, cr, ChromaR(p));
    } else {
      OffGrid(px, 1, x, y, cb);
      OffGrid(px, 2, x, y, cr);
    }
  }

  /** Colour conversion of a bitmap of `2 * w` by `2 * h` pixels. */
  method ToYCbCr(px: Bitmap, w: nat, h: nat) returns (yp: array2<real>, cb: array2<real>, cr: array2<real>)
    requires Holds(px, 2 * w, 2 * h)
    ensures IsPlane(px, 0, 2 * w, 2 * h, yp) && IsPlane(px, 1, w, h, cb) && IsPlane(px, 2, w, h, cr)
    ensures fresh(yp) && fresh(cb) && fresh(cr)
  {
    hide Sample;
    yp := new real[2 * h, 2 * w];
    cb := new real[h, w];
    cr := new real[h, w];
    for y := 0 to 2 * h
      invariant Filled(px, 0, y, 0, yp) && Filled(px, 1, y, 0, cb) && Filled(px, 2, y, 0, cr)
    {
      for x := 0 to 2 * w
        invariant Filled(px, 0, y, x, yp) && Filled(px, 1, y, x, cb) && Filled(px, 2, y, x, cr)
      {
        ConvertPixel(px, w, h, x, y, yp, cb, cr);
      }
    }
  }

  /** Reads block (row, col) of a plane. */
  method LoadBlock(plane: array2<real>, pw: nat, ph: nat, row: nat, col: nat, ghost px: Bitmap, ghost c: nat)
    returns (b: array<real>)
    requires IsPlane(px, c, pw, ph, plane) && 8 * col + 8 <= pw && 8 * row + 8 <= ph
    ensures BlockIn(px, c, row, col) && fresh(b) && b.Length == 64 && b[..] == BlockOf(px, c, row, col)
  {
    hide Sample;
    assert BlockIn(px, c, row, col);
    ghost var want := BlockOf(px, c, row, col);
    b := new real[64];
    for j := 0 to 8
      invariant forall k :: 0 <= k < 8 * j ==> b[k] == want[k]
    {
      for i := 0 to 8
        invariant forall k :: 0 <= k < 8 * j + i ==> b[k] == want[k]
      {
        assert (8 * j + i) / 8 == j && (8 * j + i) % 8 == i;
        b[j * 8 + i] := plane[8 * row + j, 8 * col + i] - 128.0;
      }
    }
  }
}
