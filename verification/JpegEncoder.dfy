/** The encoder: header segments, quantisation of all planes, the scan, and the length it returns. */
module JpegEncoder {
  import opened Bits
  import opened BitIO
  import opened Huffman
  import opened JpegTables
  import opened JpegBlock
  import opened JpegBlockIO
  import opened JpegScan
  import opened JpegQuant
  import opened JpegFile
  import opened JpegRoundTrip
  import opened JpegDct
  import opened JpegPixels
  import opened JpegPicture

  const ENC_MAX_DIM := 1280

  predicate DimsOk(w: int, h: int) {
    0 < w <= ENC_MAX_DIM && 0 < h <= ENC_MAX_DIM && w % 16 == 0 && h % 16 == 0
  }

  /** The file a bitmap is coded to. */
  function Encoded(w: Dim, h: Dim, px: Bitmap, quality: int): seq<byte>
    requires DimsOk(w, h) && Holds(px, w, h)
  {
    StdValid();
    var qlum, qchr := StepsFor(STD_LUM_Q, quality), StepsFor(STD_CHR_Q, quality);
    FileBytes(w, h, qlum, qchr, STD_CODER, QuantImage(PictureOf(px, w / 16, h / 16), qlum, qchr))
  }

  // ----- header segments: each writer leaves `rest` to complete `all` -----

  ghost predicate Owes(bw: BitWriter, rest: seq<byte>, all: seq<byte>)
    reads bw, bw.buf
  {
    bw.len <= bw.buf.Length && bw.Raw() + rest == all
  }

  method Put(bw: BitWriter, v: byte, ghost rest: seq<byte>, ghost all: seq<byte>) returns (ok: bool)
    requires Owes(bw, [v] + rest, all)
    modifies bw`len, bw.buf
    ensures ok ==> Owes(bw, rest, all)
    ensures !ok ==> |all| > bw.buf.Length
  {
    Assoc(bw.Raw(), [v], rest);
    ok := bw.PutByte(v);
  }

  method PutAll(bw: BitWriter, bytes: seq<byte>, ghost rest: seq<byte>, ghost all: seq<byte>) returns (ok: bool)
    requires Owes(bw, bytes + rest, all)
    modifies bw`len, bw.buf
    ensures ok ==> Owes(bw, rest, all)
    ensures !ok ==> |all| > bw.buf.Length
  {
    assert bytes[0..] == bytes;
    for i := 0 to |bytes|
      invariant Owes(bw, bytes[i..] + rest, all)
    {
      assert bytes[i..] + rest == [bytes[i]] + (bytes[i + 1..] + rest);
      ok := Put(bw, bytes[i], bytes[i + 1..] + rest, all);
      if !ok {
        return;
      }
    }
    assert bytes[|bytes|..] + rest == rest;
    ok := true;
  }

  method EmitDqt(bw: BitWriter, id: byte, q: Steps, ghost rest: seq<byte>, ghost all: seq<byte>) returns (ok: bool)
    requires Owes(bw, DqtSeg(id, q) + rest, all)
    modifies bw`len, bw.buf
    ensures ok ==> Owes(bw, rest, all)
    ensures !ok ==> |all| > bw.buf.Length
  {
    hide Zigzagged, Zz;
    ghost var z := Zigzagged(q);
    Assoc([0xFF, 0xDB, 0, 67, id], z, rest);
    ok := PutAll(bw, [0xFF, 0xDB, 0, 67, id], z + rest, all);
    if !ok {
      return;
    }
    assert z[0..] == z;
    for i := 0 to 64
      invariant Owes(bw, z[i..] + rest, all)
    {
      assert z[i..] + rest == [q[Zz(i)]] + (z[i + 1..] + rest);
      ok := Put(bw, q[Zz(i)], z[i + 1..] + rest, all);
      if !ok {
        return;
      }
    }
    assert z[64..] + rest == rest;
    ok := true;
  }

  method EmitDht(bw: BitWriter, id: byte, c: Code, ghost rest: seq<byte>, ghost all: seq<byte>) returns (ok: bool)
    requires c.Valid() && Owes(bw, DhtSeg(id, c) + rest, all)
    modifies bw`len, bw.buf
    ensures ok ==> Owes(bw, rest, all)
    ensures !ok ==> |all| > bw.buf.Length
  {
    hide Kraft, Total;
    var n := 2 + 1 + 16 + |c.syms|;
    ghost var lead: seq<byte> := [0xFF, 0xC4, n / 256, n % 256, id];
    Assoc(lead + c.counts, c.syms, rest);
    Assoc(lead, c.counts, c.syms + rest);
    ok := PutAll(bw, [0xFF, 0xC4, n / 256, n % 256, id], c.counts + (c.syms + rest), all);
    if !ok {
      return;
    }
    ok := PutAll(bw, c.counts, c.syms + rest, all);
    if !ok {
      return;
    }
    ok := PutAll(bw, c.syms, rest, all);
  }

  method EmitSof(bw: BitWriter, w: Dim, h: Dim, ghost rest: seq<byte>, ghost all: seq<byte>) returns (ok: bool)
    requires Owes(bw, SofSeg(w, h) + rest, all)
    modifies bw`len, bw.buf
    ensures ok ==> Owes(bw, rest, all)
    ensures !ok ==> |all| > bw.buf.Length
  {
    ok := PutAll(bw, [0xFF, 0xC0, 0, 17, 8, h / 256, h % 256, w / 256, w % 256, 3, 1, 0x22, 0, 2, 0x11, 1, 3, 0x11, 1],
                 rest, all);
  }

  /** The four Huffman tables and the scan header. */
  method EmitTables(bw: BitWriter, k: Coder, ghost all: seq<byte>) returns (ok: bool)
    requires k.Valid()
    requires Owes(bw, DhtSeg(0x00, k.dcY) + (DhtSeg(0x10, k.acY)
                      + (DhtSeg(0x01, k.dcC) + (DhtSeg(0x11, k.acC) + SOS_SEG))), all)
    modifies bw`len, bw.buf
    ensures ok ==> Owes(bw, [], all)
    ensures !ok ==> |all| > bw.buf.Length
  {
    hide DhtSeg, Kraft, Total, Owes;
    ghost var r3 := DhtSeg(0x11, k.acC) + SOS_SEG;
    ghost var r2 := DhtSeg(0x01, k.dcC) + r3;
    ghost var r1 := DhtSeg(0x10, k.acY) + r2;
    ok := EmitDht(bw, 0x00, k.dcY, r1, all);
    if !ok {
      return;
    }
    ok := EmitDht(bw, 0x10, k.acY, r2, all);
    if !ok {
      return;
    }
    ok := EmitDht(bw, 0x01, k.dcC, r3, all);
    if !ok {
      return;
    }
    ok := EmitDht(bw, 0x11, k.acC, SOS_SEG, all);
    if !ok {
      return;
    }
    Unit(SOS_SEG);
    ok := PutAll(bw, SOS_SEG, [], all);
  }

  method EmitHeaders(bw: BitWriter, w: Dim, h: Dim, qlum: Steps, qchr: Steps, k: Coder, ghost all: seq<byte>)
    returns (ok: bool)
    requires k.Valid() && all == [0xFF, 0xD8] + Headers(w, h, qlum, qchr, k) && Owes(bw, all, all)
    modifies bw`len, bw.buf
    ensures ok ==> Owes(bw, [], all)
    ensures !ok ==> |all| > bw.buf.Length
  {
    hide DhtSeg, DqtSeg, SofSeg, Kraft, Total, Owes;
    ghost var r4 := DhtSeg(0x01, k.dcC) + (DhtSeg(0x11, k.acC) + SOS_SEG);
    ghost var r3 := DhtSeg(0x00, k.dcY) + (DhtSeg(0x10, k.acY) + r4);
    ghost var r2 := SofSeg(w, h) + r3;
    ghost var r1 := DqtSeg(1, qchr) + r2;
    ok := PutAll(bw, [0xFF, 0xD8], Headers(w, h, qlum, qchr, k), all);
    if !ok {
      return;
    }
    ok := EmitDqt(bw, 0, qlum, r1, all);
    if !ok {
      return;
    }
    ok := EmitDqt(bw, 1, qchr, r2, all);
    if !ok {
      return;
    }
    ok := EmitSof(bw, w, h, r3, all);
    if !ok {
      return;
    }
    ok := EmitTables(bw, k, all);
  }

  // ----- quantisation of the planes -----

  /** Loads, transforms and quantises block (row, col) of a plane. */
  method QuantiseAt(plane: array2<real>, pw: nat, ph: nat, row: nat, col: nat, q: Steps, ghost px: Bitmap, ghost c: nat)
    returns (b: Block)
    requires IsPlane(px, c, pw, ph, plane) && 8 * col + 8 <= pw && 8 * row + 8 <= ph
    ensures BlockIn(px, c, row, col) && b == QuantBlock(DctOf(px, c, row, col), q)
  {
    hide QuantBlock, Transform, BlockOf, Sample, Sampled;
    var samples := LoadBlock(plane, pw, ph, row, col, px, c);
    var d := Fdct(samples);
    assert d[..] == DctOf(px, c, row, col);
    b := Quantise(d[..], q);
  }

  /** `r` holds the quantised blocks of component `c`, in row-major order, as far as it goes. */
  ghost predicate Quantised(r: seq<Block>, px: Bitmap, c: nat, rows: nat, cols: nat, q: Steps)
    requires c < 3 && Holds(px, Pixel(c, 8 * cols), Pixel(c, 8 * rows))
  {
    r <= QuantPlane(PlaneOf(px, c, rows, cols), q)
  }

  lemma QuantisedNext(r: seq<Block>, px: Bitmap, c: nat, rows: nat, cols: nat, q: Steps, row: nat, col: nat, b: Block)
    requires c < 3 && Holds(px, Pixel(c, 8 * cols), Pixel(c, 8 * rows)) && row < rows && col < cols
    requires Quantised(r, px, c, rows, cols, q) && |r| == row * cols + col
    requires BlockIn(px, c, row, col) && b == QuantBlock(DctOf(px, c, row, col), q)
    ensures Quantised(r + [b], px, c, rows, cols, q)
  {
    hide QuantBlock, DctOf, PlaneOf, BlockOf;
    PlaneAt(px, c, rows, cols, row, col);
  }

  lemma QuantisedAll(r: seq<Block>, px: Bitmap, c: nat, rows: nat, cols: nat, q: Steps)
    requires c < 3 && Holds(px, Pixel(c, 8 * cols), Pixel(c, 8 * rows))
    requires Quantised(r, px, c, rows, cols, q) && |r| == rows * cols
    ensures r == QuantPlane(PlaneOf(px, c, rows, cols), q)
  {
    hide QuantBlock, PlaneOf;
  }

  /** The luma blocks; a running index stores block (row, col) at its row-major position. */
  method QuantiseLuma(plane: array2<real>, rows: nat, cols: nat, q: Steps, ghost px: Bitmap) returns (r: seq<Block>)
    requires IsPlane(px, 0, 8 * cols, 8 * rows, plane)
    ensures r == QuantPlane(PlaneOf(px, 0, rows, cols), q)
  {
    hide QuantBlock, DctOf, PlaneOf, QuantPlane, Sampled;
    r := [];
    for row := 0 to rows
      invariant |r| == row * cols && Quantised(r, px, 0, rows, cols, q)
    {
      RowFits(row, rows, cols);
      for col := 0 to cols
        invariant |r| == row * cols + col && Quantised(r, px, 0, rows, cols, q)
      {
        var b := QuantiseAt(plane, 8 * cols, 8 * rows, row, col, q, px, 0);
        QuantisedNext(r, px, 0, rows, cols, q, row, col, b);
        r := r + [b];
      }
    }
    QuantisedAll(r, px, 0, rows, cols, q);
  }

  /** The chroma blocks, both components in one pass. */
  method QuantiseChroma(cb: array2<real>, cr: array2<real>, rows: nat, cols: nat, q: Steps, ghost px: Bitmap)
    returns (u: seq<Block>, v: seq<Block>)
    requires IsPlane(px, 1, 8 * cols, 8 * rows, cb) && IsPlane(px, 2, 8 * cols, 8 * rows, cr)
    ensures u == QuantPlane(PlaneOf(px, 1, rows, cols), q) && v == QuantPlane(PlaneOf(px, 2, rows, cols), q)
  {
    hide QuantBlock, DctOf, PlaneOf, QuantPlane, Sampled;
    u, v := [], [];
    for row := 0 to rows
      invariant |u| == |v| == row * cols && Quantised(u, px, 1, rows, cols, q) && Quantised(v, px, 2, rows, cols, q)
    {
      RowFits(row, rows, cols);
      for col := 0 to cols
        invariant |u| == |v| == row * cols + col
        invariant Quantised(u, px, 1, rows, cols, q) && Quantised(v, px, 2, rows, cols, q)
      {
        var b := QuantiseAt(cb, 8 * cols, 8 * rows, row, col, q, px, 1);
        QuantisedNext(u, px, 1, rows, cols, q, row, col, b);
        u := u + [b];
        b := QuantiseAt(cr, 8 * cols, 8 * rows, row, col, q, px, 2);
        QuantisedNext(v, px, 2, rows, cols, q, row, col, b);
        v := v + [b];
      }
    }
    QuantisedAll(u, px, 1, rows, cols, q);
    QuantisedAll(v, px, 2, rows, cols, q);
  }

  lemma RowFits(row: nat, rows: nat, cols: nat)
    requires row < rows
    ensures row * cols + cols == (row + 1) * cols <= rows * cols
  {
    MulMono(cols, row + 1, rows);
  }

  /** Colour conversion, transform and quantisation of a whole bitmap. */
  method QuantiseBitmap(px: Bitmap, mw: nat, mh: nat, qlum: Steps, qchr: Steps) returns (img: Image)
    requires Holds(px, 16 * mw, 16 * mh)
    ensures img == QuantImage(PictureOf(px, mw, mh), qlum, qchr)
  {
    hide QuantPlane, PlaneOf, IsPlane;
    var yp, cb, cr := ToYCbCr(px, 8 * mw, 8 * mh);
    var y := QuantiseLuma(yp, 2 * mh, 2 * mw, qlum, px);
    var u, v := QuantiseChroma(cb, cr, mh, mw, qchr, px);
    img := Planes(mw, mh, y, u, v);
  }

  // ----- the encoder -----

  method MakeTabs(k: Coder) returns (t: EncTabs)
    requires k.Valid()
    ensures t.For(k)
  {
    hide Kraft, Total, EncEntry;
    var l0, c0 := StdMakeCodes(k.dcY.counts, k.dcY.syms);
    var l2, c2 := StdMakeCodes(k.acY.counts, k.acY.syms);
    var l1, c1 := StdMakeCodes(k.dcC.counts, k.dcC.syms);
    var l3, c3 := StdMakeCodes(k.acC.counts, k.acC.syms);
    t := EncTabs([l0, l1], [c0, c1], [l2, l3], [c2, c3]);
  }

  /** Scan, padding and end marker after the headers. */
  method EmitScan(bw: BitWriter, img: Image, k: Coder, ghost head: seq<byte>) returns (ok: bool)
    requires k.Valid() && img.Valid() && bw.At(head, [])
    modifies bw, bw.buf
    ensures var all := head + (Emitted(Padded(ScanBits(k, img))) + [0xFF, 0xD9]);
            ok == (|all| <= bw.buf.Length) && (ok ==> bw.len <= bw.buf.Length && bw.Raw() == all)
  {
    hide ScanBits, Emitted, Padded, Kraft, Total;
    ghost var bits := ScanBits(k, img);
    ghost var data := Emitted(Padded(bits));
    ghost var all := head + (data + [0xFF, 0xD9]);
    PaddedGrows(bits);
    var t := MakeTabs(k);
    ok := EncodeScan(bw, img, t, k, head);
    if !ok {
      return;
    }
    ok := bw.Flush(head, bits);
    if !ok {
      return;
    }
    Assoc(head, data, [0xFF, 0xD9]);
    Unit([0xFF, 0xD9]);
    ok := PutAll(bw, [0xFF, 0xD9], [], all);
    if ok {
      Unit(bw.Raw());
    }
  }

  lemma PaddedGrows(bits: seq<bool>)
    ensures |Emitted(bits)| <= |Emitted(Padded(bits))|
  {
    hide Emitted;
    var t := Tail(bits);
    if t != [] {
      EmittedGrows(bits, BitsOf(Pow2(8 - |t|) - 1, 8 - |t|));
    }
  }

  /** Codes a bitmap into `out`: the length of the file, or -1 for bad dimensions or too little room. */
  method JpegEncode(px: Bitmap, w: int, h: int, quality: int, out: array<byte>) returns (n: int)
    requires DimsOk(w, h) ==> Holds(px, w, h)
    modifies out
    ensures !DimsOk(w, h) ==> n == -1 && out[..] == old(out[..])
    ensures DimsOk(w, h) ==>
              var file := Encoded(w, h, px, quality);
              if |file| <= out.Length then n == |file| && out[..n] == file else n == -1
  {
    hide Headers, FileBytes, Kraft, Total, AC_LUM_SYM, AC_CHR_SYM, QuantImage, PictureOf, Emitted, Padded, ScanBits;
    if w <= 0 || h <= 0 || w > ENC_MAX_DIM || h > ENC_MAX_DIM {
      return -1;
    }
    if w % 16 != 0 || h % 16 != 0 {
      return -1;
    }
    StdValid();
    var qlum := MakeSteps(STD_LUM_Q, quality);
    var qchr := MakeSteps(STD_CHR_Q, quality);
    var img := QuantiseBitmap(px, w / 16, h / 16, qlum, qchr);
    ghost var head := [0xFF, 0xD8] + Headers(w, h, qlum, qchr, STD_CODER);
    FileSplit(w, h, qlum, qchr, STD_CODER, img);
    var bw := new BitWriter(out);
    Unit(head);
    var ok := EmitHeaders(bw, w, h, qlum, qchr, STD_CODER, head);
    if !ok {
      return -1;
    }
    Unit(bw.Raw());
    HeadDone(bw, head);
    ok := EmitScan(bw, img, STD_CODER, head);
    n := if ok then bw.len else -1;
  }

  lemma FileSplit(w: Dim, h: Dim, qlum: Steps, qchr: Steps, k: Coder, img: Image)
    requires k.Valid() && img.Valid()
    ensures FileBytes(w, h, qlum, qchr, k, img)
         == ([0xFF, 0xD8] + Headers(w, h, qlum, qchr, k)) + (Emitted(Padded(ScanBits(k, img))) + [0xFF, 0xD9])
  {
    hide Headers, Emitted, Padded, ScanBits, Kraft, Total;
    Assoc([0xFF, 0xD8], Headers(w, h, qlum, qchr, k), Emitted(Padded(ScanBits(k, img))) + [0xFF, 0xD9]);
  }

  lemma HeadDone(bw: BitWriter, head: seq<byte>)
    requires bw.len <= bw.buf.Length && bw.Raw() == head && bw.nbits == 0 && bw.bitbuf == 0
    ensures bw.At(head, [])
  {
    Unit(head);
  }

  // ----- the whole codec -----

  /** The outcome has every DCT coefficient of the bitmap within half of its quantiser step. */
  ghost predicate Shows(r: Result, w: Dim, h: Dim, px: Bitmap, quality: int)
    requires DimsOk(w, h) && Holds(px, w, h)
  {
    && r.Done? && r.frame == Frame(w, h, COMPS_420)
    && Approximates(r.planes, PictureOf(px, w / 16, h / 16), StepsFor(STD_LUM_Q, quality), StepsFor(STD_CHR_Q, quality))
  }

  /** Every bitmap the encoder accepts, at every quality, whatever tables earlier files left: the file
      decodes with every DCT coefficient within half of its quantiser step when the decoder accepts the
      size, and fails otherwise. */
  lemma BitmapRoundTrip(w: Dim, h: Dim, px: Bitmap, quality: int, qt: QTabs, tabs: Tabs, o: Opts)
    requires DimsOk(w, h) && Holds(px, w, h) && tabs.Valid() && !o.probe
    ensures var r := DecodeFile(Encoded(w, h, px, quality), qt, tabs, o);
            if SizeOk(w, h, o) then Shows(r, w, h, px, quality) else r == Fail
  {
    hide DecodeFile, FileBytes, SizeOk, Kraft, Total, AC_LUM_SYM, AC_CHR_SYM, Approximates, QuantImage, PictureOf;
    PictureRoundTrip(w, h, PictureOf(px, w / 16, h / 16), quality, qt, tabs, o);
  }

  /** A flat white bitmap of 16 by 816 pixels: the encoder accepts it, the decoder never does. */
  lemma TallBitmapFails(quality: int, qt: QTabs, tabs: Tabs, o: Opts)
    requires tabs.Valid() && !o.probe
    ensures var px := seq(816, y => seq(16, x => 0xFFFFFFFF));
            DimsOk(16, 816) && Holds(px, 16, 816) && DecodeFile(Encoded(16, 816, px, quality), qt, tabs, o) == Fail
  {
    hide DecodeFile, Encoded;
    BitmapRoundTrip(16, 816, seq(816, y => seq(16, x => 0xFFFFFFFF)), quality, qt, tabs, o);
  }
}
