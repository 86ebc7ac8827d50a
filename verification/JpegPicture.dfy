/** Pictures as the encoder sees them after the DCT, coded with its own tables: what the decoder hands
    to the inverse DCT is within half a quantiser step of every coefficient. */
module JpegPicture {
  import opened Bits
  import opened Huffman
  import opened JpegTables
  import opened JpegBlock
  import opened JpegScan
  import opened JpegQuant
  import opened JpegFile
  import opened JpegRoundTrip
  import opened JpegPixels

  // ----- the encoder's Huffman tables -----

  const STD_CODER := Coder(Code(DC_LUM_COUNTS, DC_SYM), Code(AC_LUM_COUNTS, AC_LUM_SYM),
                           Code(DC_CHR_COUNTS, DC_SYM), Code(AC_CHR_COUNTS, AC_CHR_SYM))

  /** The typical tables satisfy Kraft's inequality and list what baseline blocks need, no more. */
  lemma StdBaseline()
    ensures STD_CODER.IsBaseline()
  {
    StdValid();
    StdLuma();
    StdChroma();
  }

  lemma StdValid()
    ensures STD_CODER.Valid() && STD_CODER.dcY.IsDc() && STD_CODER.dcC.IsDc()
  {
    hide Kraft, Total, AC_LUM_SYM, AC_CHR_SYM;
    StdTables();
  }

  lemma StdLuma()
    ensures STD_CODER.acY.IsAc()
  {
    StdValid();
    hide Kraft, Total, AC_LUM_SYM, AC_CHR_SYM;
    RunSymbols();
    forall run: nat, cat: nat | run < 16 && 1 <= cat <= 10
      ensures Symbol(run, cat) in AC_LUM_SYM
    {
      LumComplete(run, cat);
    }
    forall s: byte | s in AC_LUM_SYM
      ensures s % 16 <= 10
    {
      LumSizes(s);
    }
  }

  lemma StdChroma()
    ensures STD_CODER.acC.IsAc()
  {
    StdValid();
    hide Kraft, Total, AC_LUM_SYM, AC_CHR_SYM;
    RunSymbols();
    forall run: nat, cat: nat | run < 16 && 1 <= cat <= 10
      ensures Symbol(run, cat) in AC_CHR_SYM
    {
      ChrComplete(run, cat);
    }
    forall s: byte | s in AC_CHR_SYM
      ensures s % 16 <= 10
    {
      ChrSizes(s);
    }
  }

  // ----- pictures -----

  /** DCT coefficients, as real numbers. */
  type Picture = Planes<Dct>

  function QuantPlane(p: seq<Dct>, q: Steps): (r: seq<Block>)
    ensures |r| == |p| && forall i :: 0 <= i < |p| ==> r[i] == QuantBlock(p[i], q)
  {
    seq(|p|, i requires 0 <= i < |p| => QuantBlock(p[i], q))
  }

  function QuantImage(pic: Picture, qlum: Steps, qchr: Steps): (img: Image)
    requires pic.Valid()
    ensures img.Valid() && img.mw == pic.mw && img.mh == pic.mh
  {
    Planes(pic.mw, pic.mh, QuantPlane(pic.y, qlum), QuantPlane(pic.cb, qchr), QuantPlane(pic.cr, qchr))
  }

  lemma QuantAt(pic: Picture, qlum: Steps, qchr: Steps, v: Visit)
    requires pic.Valid() && pic.Has(v)
    ensures QuantImage(pic, qlum, qchr).Has(v)
    ensures QuantImage(pic, qlum, qchr).At(v) == QuantBlock(pic.At(v), if v.c == 0 then qlum else qchr)
  {
    hide QuantBlock;
    if v.c == 0 {
      IndexBound(v.row, v.col, 2 * pic.mh, 2 * pic.mw);
    } else {
      IndexBound(v.row, v.col, pic.mh, pic.mw);
    }
  }

  // ----- coefficients of 8-bit samples are in range -----

  /** Levels that come from 8-bit samples. */
  ghost predicate InReach(b: seq<int>) {
    |b| == 64 && -1024 <= b[0] <= 1023 && forall k :: 1 <= k < 64 ==> -1023 <= b[k] <= 1023
  }

  lemma QuotientRange(d: real, s: real, lo: real, hi: real)
    requires s >= 1.0 && lo <= 0.0 <= hi && lo <= d <= hi
    ensures lo <= d / s <= hi
  {
    var x := d / s;
    assert x * s == d;
    if x >= 0.0 {
      Enlarges(x, s);
    } else {
      Enlarges(-x, s);
    }
  }

  lemma RoundRange(x: real, lo: int, hi: int)
    requires lo as real <= x <= hi as real
    ensures lo <= Round(x) <= hi
  {
    hide Round;
    RoundNearest(x);
  }

  /** Division by a step and rounding do not enlarge an integer range. */
  lemma LevelRange(d: real, step: byte, lo: int, hi: int)
    requires step >= 1 && lo <= 0 <= hi && lo as real <= d <= hi as real
    ensures lo <= Level(d, step) <= hi
  {
    hide Round;
    QuotientRange(d, step as real, lo as real, hi as real);
    RoundRange(d / (step as real), lo, hi);
  }

  lemma SampledBlock(d: Dct, q: Steps)
    requires Sampled(d)
    ensures InReach(QuantBlock(d, q))
  {
    hide Level;
    LevelRange(d[0], q[0], -1024, 1023);
    forall k | 1 <= k < 64
      ensures -1023 <= QuantBlock(d, q)[k] <= 1023
    {
      assert Zz(k) != 0;
      LevelRange(d[Zz(k)], q[Zz(k)], -1023, 1023);
    }
  }

  lemma {:induction false} ReachInRange(vs: seq<Visit>, blocks: seq<seq<int>>, pred: seq<int>)
    requires |vs| == |blocks| && |pred| == 3 && (forall v :: v in vs ==> v.c < 3)
    requires forall i :: 0 <= i < |vs| ==> |blocks[i]| == 64 && InReach(blocks[i])
    requires forall c :: 0 <= c < 3 ==> -1024 <= pred[c] <= 1023
    ensures AllInRange(vs, blocks, pred)
    decreases |vs|
  {
    if vs != [] {
      ReachInRange(vs[1..], blocks[1..], pred[vs[0].c := blocks[0][0]]);
    }
  }

  lemma SampledPart(pic: Picture, v: Visit)
    requires pic.Valid() && AllSampled(pic) && pic.Has(v)
    ensures Sampled(pic.At(v))
  {
    hide Sampled;
    if v.c == 0 {
      IndexBound(v.row, v.col, 2 * pic.mh, 2 * pic.mw);
    } else {
      IndexBound(v.row, v.col, pic.mh, pic.mw);
    }
  }

  lemma SampledAt(pic: Picture, qlum: Steps, qchr: Steps, v: Visit)
    requires pic.Valid() && AllSampled(pic) && pic.Has(v)
    ensures QuantImage(pic, qlum, qchr).Has(v) && InReach(QuantImage(pic, qlum, qchr).At(v))
  {
    hide QuantBlock, QuantImage, Sampled, InReach, Planes.At;
    SampledPart(pic, v);
    QuantAt(pic, qlum, qchr, v);
    SampledBlock(pic.At(v), if v.c == 0 then qlum else qchr);
  }

  /** Whatever the quality, the coefficients of 8-bit samples can be coded. */
  lemma SampledCodable(pic: Picture, qlum: Steps, qchr: Steps)
    requires pic.Valid() && AllSampled(pic)
    ensures Codable(QuantImage(pic, qlum, qchr))
  {
    hide QuantImage, EncOrder, AllInRange, AllSampled, InReach, Planes.At;
    var img := QuantImage(pic, qlum, qchr);
    var vs := Positions(img);
    var blocks := BlocksAt(img, vs);
    forall i | 0 <= i < |vs|
      ensures InReach(blocks[i])
    {
      assert vs[i] in vs && img.Has(vs[i]);
      assert pic.Has(vs[i]);
      SampledAt(pic, qlum, qchr, vs[i]);
    }
    ReachInRange(vs, blocks, [0, 0, 0]);
  }

  // ----- the whole codec -----

  /** Within half a step. */
  predicate Near(got: int, want: real, step: byte) {
    -(step as real) <= 2.0 * (got as real - want) <= step as real
  }

  /** The planes hold every coefficient of the picture within half of its quantiser step. */
  ghost predicate Approximates(planes: map<Visit, seq<int>>, pic: Picture, qlum: Steps, qchr: Steps)
    requires pic.Valid()
  {
    && (forall v: Visit :: v in planes <==> pic.Has(v))
    && (forall v: Visit, i: nat :: v in planes && i < 64 ==>
          |planes[v]| == 64 && Near(planes[v][i], pic.At(v)[i], (if v.c == 0 then qlum else qchr)[i]))
  }

  lemma BlockNear(d: Dct, q: Steps, i: nat)
    requires i < 64
    ensures Near(Dequant(QuantBlock(d, q), Zigzagged(q))[i], d[i], q[i])
  {
    hide Dequant, QuantBlock, Zigzagged;
    QuantError(d, q, i);
  }

  lemma RecoveredIsNear(planes: map<Visit, seq<int>>, pic: Picture, qlum: Steps, qchr: Steps)
    requires pic.Valid() && Recovers(planes, QuantImage(pic, qlum, qchr), qlum, qchr)
    ensures Approximates(planes, pic, qlum, qchr)
  {
    hide QuantBlock, Dequant, Zigzagged, Near;
    forall v: Visit, i: nat | v in planes && i < 64
      ensures pic.Has(v) && |planes[v]| == 64
      ensures Near(planes[v][i], pic.At(v)[i], (if v.c == 0 then qlum else qchr)[i])
    {
      var q := if v.c == 0 then qlum else qchr;
      QuantAt(pic, qlum, qchr, v);
      assert planes[v] == Dequant(QuantBlock(pic.At(v), q), Zigzagged(q));
      BlockNear(pic.At(v), q, i);
    }
  }

  /** Files of any quality, whatever tables earlier files left: a size the decoder accepts gives every
      coefficient within half of its quantiser step, any other size fails. */
  lemma PictureRoundTrip(w: Dim, h: Dim, pic: Picture, quality: int, qt: QTabs, tabs: Tabs, o: Opts)
    requires pic.Valid() && AllSampled(pic) && tabs.Valid() && !o.probe
    requires w == 16 * pic.mw && h == 16 * pic.mh && w >= 1 && h >= 1
    ensures STD_CODER.Valid()
    ensures var qlum, qchr := StepsFor(STD_LUM_Q, quality), StepsFor(STD_CHR_Q, quality);
            var r := DecodeFile(FileBytes(w, h, qlum, qchr, STD_CODER, QuantImage(pic, qlum, qchr)), qt, tabs, o);
            if SizeOk(w, h, o) then
              r.Done? && r.frame == Frame(w, h, COMPS_420) && Approximates(r.planes, pic, qlum, qchr)
            else r == Fail
  {
    hide DecodeFile, FileBytes, Codable, SizeOk, Kraft, Total, AC_LUM_SYM, AC_CHR_SYM, Approximates, Recovers,
         AllSampled;
    StdBaseline();
    var qlum, qchr := StepsFor(STD_LUM_Q, quality), StepsFor(STD_CHR_Q, quality);
    var img := QuantImage(pic, qlum, qchr);
    SampledCodable(pic, qlum, qchr);
    FileRoundTripIff(w, h, qlum, qchr, STD_CODER, img, qt, tabs, o);
    if SizeOk(w, h, o) {
      var r := DecodeFile(FileBytes(w, h, qlum, qchr, STD_CODER, img), qt, tabs, o);
      RecoveredIsNear(r.planes, pic, qlum, qchr);
    }
  }
}
