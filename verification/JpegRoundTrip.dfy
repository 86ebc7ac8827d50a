/** The decoder undoes the encoder: every segment is read back where it was written, the marker scan
    passes over the entropy-coded data, and all blocks come back at their positions. */
module JpegRoundTrip {
  import opened Bits
  import opened BitIO
  import opened Huffman
  import opened JpegBlock
  import opened JpegScan
  import opened JpegQuant
  import opened JpegFile

  // ----- markers -----

  lemma SkipHere(m: byte, tail: seq<byte>)
    requires m != 0 && m != MARKER
    ensures Skip([MARKER, m] + tail) == Some((m, tail))
  {
    var d := [MARKER, m] + tail;
    assert d[1..] == [m] + tail;
    assert d[1..][1..] == tail;
  }

  /** Rescanning the entropy-coded segment from its start stops at the marker that ends it. */
  lemma {:induction false} SkipStuffed(d: seq<byte>, m: byte, tail: seq<byte>)
    requires m != 0 && m != MARKER
    ensures Skip(Stuff(d) + ([MARKER, m] + tail)) == Some((m, tail))
  {
    var end := [MARKER, m] + tail;
    if d == [] {
      Unit(end);
      SkipHere(m, tail);
    } else {
      SkipStuffed(d[1..], m, tail);
      Assoc(StuffByte(d[0]), Stuff(d[1..]), end);
      SkipByte(d[0], Stuff(d[1..]) + end);
    }
  }

  lemma SkipByte(b: byte, s: seq<byte>)
    ensures Skip(StuffByte(b) + s) == Skip(s)
  {
    var d := StuffByte(b) + s;
    if b == MARKER {
      assert d[1..][1..] == s;
    } else {
      assert d[1..] == s;
    }
  }

  lemma RunMarker(m: byte, tail: seq<byte>, st: State, o: Opts)
    requires st.Valid() && m != 0 && m != MARKER
    ensures Run([MARKER, m] + tail, st, o) == Segment(m, tail, st, o)
  {
    hide Segment, Skip;
    SkipHere(m, tail);
  }

  // ----- each header segment is read where it was written -----

  lemma SegLenOf(n: nat, tail: seq<byte>)
    requires 2 <= n < 0x1_0000
    ensures SegLen([n / 256, n % 256] + tail) == Some((n - 2, tail))
  {
    var d := [n / 256, n % 256] + tail;
    assert d[2..] == tail;
  }

  lemma DqtBodyRead(id: byte, q: Steps, tail: seq<byte>, qt: QTabs)
    requires id < 4
    ensures DqtBody([id] + (Zigzagged(q) + tail), 65, qt) == Some((tail, SetQt(qt, id, Zigzagged(q))))
  {
    hide Zigzagged, SetQt;
    var d := [id] + (Zigzagged(q) + tail);
    assert d[1..65] == Zigzagged(q) && d[65..] == tail;
  }

  lemma DqtRead(id: byte, q: Steps, tail: seq<byte>, st: State, o: Opts)
    requires st.Valid() && id < 4
    ensures Run(DqtSeg(id, q) + tail, st, o) == Run(tail, st.(qt := SetQt(st.qt, id, Zigzagged(q))), o)
  {
    hide Run, DqtBody, SegLen, Zigzagged, SetQt;
    var body := [id] + (Zigzagged(q) + tail);
    assert DqtSeg(id, q) + tail == [MARKER, 0xDB] + ([0, 67] + body);
    RunMarker(0xDB, [0, 67] + body, st, o);
    SegLenOf(67, body);
    DqtBodyRead(id, q, tail, st.qt);
  }

  lemma DhtBodyRead(id: byte, c: Code, tail: seq<byte>, tabs: Tabs)
    requires tabs.Valid() && c.Valid() && |c.syms| >= 1 && id % 16 < 2 && id / 16 < 2
    ensures DhtBody([id] + (c.counts + (c.syms + tail)), 17 + |c.syms|, tabs)
         == Some((tail, SetTab(tabs, id / 16, id % 16, c.Tab())))
  {
    hide CanonTable, SetTab, Total, Kraft;
    var d := [id] + (c.counts + (c.syms + tail));
    var n := |c.syms|;
    assert d[1..17] == c.counts && d[17..17 + n] == c.syms && d[17 + n..] == tail;
  }

  lemma DhtRead(id: byte, c: Code, tail: seq<byte>, st: State, o: Opts)
    requires st.Valid() && c.Valid() && |c.syms| >= 1 && id % 16 < 2 && id / 16 < 2
    ensures Run(DhtSeg(id, c) + tail, st, o) == Run(tail, st.(tabs := SetTab(st.tabs, id / 16, id % 16, c.Tab())), o)
  {
    hide Run, DhtBody, SegLen, CanonTable, SetTab, Total, Kraft;
    var n := 19 + |c.syms|;
    var body := [id] + (c.counts + (c.syms + tail));
    assert DhtSeg(id, c) + tail == [MARKER, 0xC4] + ([n / 256, n % 256] + body);
    RunMarker(0xC4, [n / 256, n % 256] + body, st, o);
    SegLenOf(n, body);
    DhtBodyRead(id, c, tail, st.tabs);
  }

  /** The frame the encoder declares: 4:2:0, quantiser 0 for luma and 1 for chroma. */
  const COMPS_420: seq<Comp> := [Comp(1, 2, 2, 0), Comp(2, 1, 1, 1), Comp(3, 1, 1, 1)]

  lemma CompRead(id: byte, sf: byte, tq: byte, tail: seq<byte>, n: nat)
    requires 1 <= sf / 16 <= 4 && 1 <= sf % 16 <= 4
    ensures Comps([id, sf, tq] + tail, n + 1)
         == var r := Comps(tail, n);
            if r.None? then None else Some(([Comp(id, sf / 16, sf % 16, tq)] + r.value.0, r.value.1))
  {
    assert ([id, sf, tq] + tail)[3..] == tail;
  }

  lemma CompsRead(tail: seq<byte>)
    ensures Comps([1, 0x22, 0, 2, 0x11, 1, 3, 0x11, 1] + tail, 3) == Some((COMPS_420, tail))
  {
    var d2 := [3, 0x11, 1] + tail;
    var d1 := [2, 0x11, 1] + d2;
    assert [1, 0x22, 0, 2, 0x11, 1, 3, 0x11, 1] + tail == [1, 0x22, 0] + d1;
    CompRead(1, 0x22, 0, d1, 2);
    CompRead(2, 0x11, 1, d2, 1);
    CompRead(3, 0x11, 1, tail, 0);
    assert Comps(tail, 0) == Some(([], tail));
    hide Comps;
    var c1, c2, c3 := Comp(1, 2, 2, 0), Comp(2, 1, 1, 1), Comp(3, 1, 1, 1);
    Unit([c3]);
    assert Comps(d2, 1) == Some(([c3], tail));
    assert Comps(d1, 2) == Some(([c2] + [c3], tail));
    assert [c1] + ([c2] + [c3]) == COMPS_420;
  }

  lemma SofRead(w: Dim, h: Dim, tail: seq<byte>, o: Opts)
    requires w >= 1 && h >= 1
    ensures Sof([0, 17, 8, h / 256, h % 256, w / 256, w % 256, 3, 1, 0x22, 0, 2, 0x11, 1, 3, 0x11, 1] + tail, o)
         == if SizeOk(w, h, o) then Some((tail, Frame(w, h, COMPS_420))) else None
  {
    hide Comps, SizeOk;
    var d := [0, 17, 8, h / 256, h % 256, w / 256, w % 256, 3, 1, 0x22, 0, 2, 0x11, 1, 3, 0x11, 1] + tail;
    assert d[8..] == [1, 0x22, 0, 2, 0x11, 1, 3, 0x11, 1] + tail;
    assert Be16(d[3..]) == h && Be16(d[5..]) == w;
    CompsRead(tail);
  }

  lemma SofSegRead(w: Dim, h: Dim, tail: seq<byte>, st: State, o: Opts)
    requires st.Valid() && w >= 1 && h >= 1
    ensures Run(SofSeg(w, h) + tail, st, o)
         == if SizeOk(w, h, o) then Run(tail, st.(frame := Some(Frame(w, h, COMPS_420))), o) else Fail
  {
    hide Run, Sof, SizeOk, Skip;
    var body := [0, 17, 8, h / 256, h % 256, w / 256, w % 256, 3, 1, 0x22, 0, 2, 0x11, 1, 3, 0x11, 1] + tail;
    assert SofSeg(w, h) + tail == [MARKER, 0xC0] + body;
    RunMarker(0xC0, body, st, o);
    SofRead(w, h, tail, o);
  }

  lemma SosRead(tail: seq<byte>, st: State, o: Opts)
    requires st.Valid() && st.frame.Some? && |st.frame.value.comps| == 3
    ensures Run(SOS_SEG + tail, st, o)
         == if o.probe then Probed(st.frame.value.fw, st.frame.value.fh)
            else var s := Scan(tail, st); if s.None? then Fail else Run(tail, s.value, o)
  {
    hide Run, Scan, Sos;
    var body := [0, 12, 3, 1, 0x00, 2, 0x11, 3, 0x11, 0, 63, 0] + tail;
    assert SOS_SEG + tail == [MARKER, 0xDA] + body;
    RunMarker(0xDA, body, st, o);
    SosBodyRead(tail);
  }

  lemma SosBodyRead(tail: seq<byte>)
    ensures Sos([0, 12, 3, 1, 0x00, 2, 0x11, 3, 0x11, 0, 63, 0] + tail, 3) == Some(tail)
  {
    var d := [0, 12, 3, 1, 0x00, 2, 0x11, 3, 0x11, 0, 63, 0] + tail;
    assert d[12..] == tail;
  }

  // ----- all headers -----

  ghost predicate Listing(k: Coder) {
    k.Valid() && |k.dcY.syms| >= 1 && |k.acY.syms| >= 1 && |k.dcC.syms| >= 1 && |k.acC.syms| >= 1
  }

  function CoderTabs(k: Coder): (t: Tabs)
    requires k.Valid()
    ensures t.Valid()
  {
    Tabs([k.dcY.Tab(), k.dcC.Tab()], [k.acY.Tab(), k.acC.Tab()])
  }

  /** What the decoder knows when it reaches the scan: dimensions and all tables, whatever it knew before. */
  function ScanState(st: State, w: Dim, h: Dim, qlum: Steps, qchr: Steps, k: Coder): (r: State)
    requires st.Valid() && k.Valid() && w >= 1 && h >= 1
    ensures r.Valid()
  {
    State(SetQt(SetQt(st.qt, 0, Zigzagged(qlum)), 1, Zigzagged(qchr)), CoderTabs(k),
          Some(Frame(w, h, COMPS_420)), st.planes, st.decoded)
  }

  lemma DhtsRead(k: Coder, tail: seq<byte>, st: State, o: Opts)
    requires st.Valid() && Listing(k)
    ensures Run(DhtSeg(0x00, k.dcY) + (DhtSeg(0x10, k.acY) + (DhtSeg(0x01, k.dcC) + (DhtSeg(0x11, k.acC) + tail))), st,
                o)
         == Run(tail, st.(tabs := CoderTabs(k)), o)
  {
    hide Run, CanonTable, DhtSeg, Kraft, Total;
    var t4 := DhtSeg(0x11, k.acC) + tail;
    var t3 := DhtSeg(0x01, k.dcC) + t4;
    var t2 := DhtSeg(0x10, k.acY) + t3;
    var s1 := st.(tabs := SetTab(st.tabs, 0, 0, k.dcY.Tab()));
    var s2 := s1.(tabs := SetTab(s1.tabs, 1, 0, k.acY.Tab()));
    var s3 := s2.(tabs := SetTab(s2.tabs, 0, 1, k.dcC.Tab()));
    DhtRead(0x00, k.dcY, t2, st, o);
    DhtRead(0x10, k.acY, t3, s1, o);
    DhtRead(0x01, k.dcC, t4, s2, o);
    DhtRead(0x11, k.acC, tail, s3, o);
    assert SetTab(s3.tabs, 1, 1, k.acC.Tab()) == CoderTabs(k);
  }

  lemma HeadersRead(w: Dim, h: Dim, qlum: Steps, qchr: Steps, k: Coder, tail: seq<byte>, st: State, o: Opts)
    requires st.Valid() && Listing(k) && w >= 1 && h >= 1
    ensures Run(Headers(w, h, qlum, qchr, k) + tail, st, o)
         == if !SizeOk(w, h, o) then Fail
            else if o.probe then Probed(w, h)
            else var s := Scan(tail, ScanState(st, w, h, qlum, qchr, k));
                 if s.None? then Fail else Run(tail, s.value, o)
  {
    hide Run, Scan, CanonTable, DhtSeg, DqtSeg, SofSeg, SizeOk, Zigzagged, SetQt, Kraft, Total;
    var sos := SOS_SEG + tail;
    var dhts := DhtSeg(0x00, k.dcY) + (DhtSeg(0x10, k.acY) + (DhtSeg(0x01, k.dcC) + (DhtSeg(0x11, k.acC) + sos)));
    HeadersAppend(w, h, qlum, qchr, k, tail);
    var s1 := st.(qt := SetQt(st.qt, 0, Zigzagged(qlum)));
    var s2 := s1.(qt := SetQt(s1.qt, 1, Zigzagged(qchr)));
    DqtRead(0, qlum, DqtSeg(1, qchr) + (SofSeg(w, h) + dhts), st, o);
    DqtRead(1, qchr, SofSeg(w, h) + dhts, s1, o);
    SofSegRead(w, h, dhts, s2, o);
    if SizeOk(w, h, o) {
      var s3 := s2.(frame := Some(Frame(w, h, COMPS_420)));
      DhtsRead(k, sos, s3, o);
      SosRead(tail, s3.(tabs := CoderTabs(k)), o);
    }
  }

  lemma HeadersAppend(w: Dim, h: Dim, qlum: Steps, qchr: Steps, k: Coder, tail: seq<byte>)
    requires k.Valid()
    ensures Headers(w, h, qlum, qchr, k) + tail
         == DqtSeg(0, qlum) + (DqtSeg(1, qchr) + (SofSeg(w, h)
            + (DhtSeg(0x00, k.dcY) + (DhtSeg(0x10, k.acY)
            + (DhtSeg(0x01, k.dcC) + (DhtSeg(0x11, k.acC) + (SOS_SEG + tail)))))))
  {
    hide DhtSeg, DqtSeg, SofSeg, Kraft, Total;
    var h7 := DhtSeg(0x11, k.acC) + SOS_SEG;
    var h6 := DhtSeg(0x01, k.dcC) + h7;
    var h5 := DhtSeg(0x10, k.acY) + h6;
    var h4 := DhtSeg(0x00, k.dcY) + h5;
    var h3 := SofSeg(w, h) + h4;
    var h2 := DqtSeg(1, qchr) + h3;
    Assoc(DqtSeg(0, qlum), h2, tail);
    Assoc(DqtSeg(1, qchr), h3, tail);
    Assoc(SofSeg(w, h), h4, tail);
    Assoc(DhtSeg(0x00, k.dcY), h5, tail);
    Assoc(DhtSeg(0x10, k.acY), h6, tail);
    Assoc(DhtSeg(0x01, k.dcC), h7, tail);
    Assoc(DhtSeg(0x11, k.acC), SOS_SEG, tail);
  }

  // ----- blocks at their positions -----

  /** Storing the blocks of distinct positions puts each one at its own, and touches no other. */
  lemma {:induction false} PlaceKeys(planes: map<Visit, seq<int>>, vs: seq<Visit>, blocks: seq<seq<int>>,
                                     comps: seq<Comp>,
                                     qt: QTabs, v: Visit)
    requires |vs| == |blocks| && (forall u :: u in vs ==> u.c < |comps|)
    requires forall i :: 0 <= i < |blocks| ==> |blocks[i]| == 64
    ensures var p := Place(planes, vs, blocks, comps, qt);
            (v in p <==> v in planes || v in vs) && (v in planes && v !in vs ==> p[v] == planes[v])
    decreases |vs|
  {
    hide Dequant;
    if vs != [] {
      var b := Dequant(blocks[0], StepsOf(qt, comps[vs[0].c]));
      PlaceKeys(planes[vs[0] := b], vs[1..], blocks[1..], comps, qt, v);
    }
  }

  lemma {:induction false} PlaceAt(planes: map<Visit, seq<int>>, vs: seq<Visit>, blocks: seq<seq<int>>,
                                   comps: seq<Comp>,
                                   qt: QTabs, i: nat)
    requires |vs| == |blocks| && (forall u :: u in vs ==> u.c < |comps|) && Distinct(vs) && i < |vs|
    requires forall j :: 0 <= j < |blocks| ==> |blocks[j]| == 64
    ensures var p := Place(planes, vs, blocks, comps, qt);
            vs[i] in p && p[vs[i]] == Dequant(blocks[i], StepsOf(qt, comps[vs[i].c]))
    decreases |vs|
  {
    hide Dequant;
    var b := Dequant(blocks[0], StepsOf(qt, comps[vs[0].c]));
    if i == 0 {
      PlaceKeys(planes[vs[0] := b], vs[1..], blocks[1..], comps, qt, vs[0]);
    } else {
      PlaceAt(planes[vs[0] := b], vs[1..], blocks[1..], comps, qt, i - 1);
    }
  }

  /** The planes hold the image: every block at its own grid position, times its quantiser steps, and nothing else. */
  ghost predicate Recovers(planes: map<Visit, seq<int>>, img: Image, qlum: Steps, qchr: Steps)
    requires img.Valid()
  {
    forall v: Visit ::
      && (v in planes <==> img.Has(v))
      && (img.Has(v) ==> planes[v] == Dequant(img.At(v), Zigzagged(if v.c == 0 then qlum else qchr)))
  }

  ghost predicate Carries(qt: QTabs, qlum: Steps, qchr: Steps) {
    qt[0] == Zigzagged(qlum) && qt[1] == Zigzagged(qchr)
  }

  lemma PlacedAt(vs: seq<Visit>, blocks: seq<seq<int>>, qt: QTabs, qlum: Steps, qchr: Steps, i: nat)
    requires |vs| == |blocks| && (forall u :: u in vs ==> u.c < 3) && Distinct(vs) && i < |vs|
    requires (forall j :: 0 <= j < |blocks| ==> |blocks[j]| == 64) && Carries(qt, qlum, qchr)
    ensures var p := Place(map[], vs, blocks, COMPS_420, qt);
            vs[i] in p && p[vs[i]] == Dequant(blocks[i], Zigzagged(if vs[i].c == 0 then qlum else qchr))
  {
    hide Dequant, Zigzagged, Place, Distinct;
    PlaceAt(map[], vs, blocks, COMPS_420, qt, i);
  }

  lemma PlacedRecovers(img: Image, vs: seq<Visit>, qt: QTabs, qlum: Steps, qchr: Steps)
    requires img.Valid() && Distinct(vs) && (forall v :: v in vs <==> img.Has(v)) && Carries(qt, qlum, qchr)
    ensures Recovers(Place(map[], vs, BlocksAt(img, vs), COMPS_420, qt), img, qlum, qchr)
  {
    hide Dequant, Zigzagged, Place, Distinct;
    var blocks := BlocksAt(img, vs);
    var p := Place(map[], vs, blocks, COMPS_420, qt);
    forall v: Visit
      ensures v in p <==> img.Has(v)
      ensures img.Has(v) ==> p[v] == Dequant(img.At(v), Zigzagged(if v.c == 0 then qlum else qchr))
    {
      PlaceKeys(map[], vs, blocks, COMPS_420, qt, v);
      if img.Has(v) {
        var i :| 0 <= i < |vs| && vs[i] == v;
        PlacedAt(vs, blocks, qt, qlum, qchr, i);
      }
    }
  }

  /** Only the image's own blocks give the image back. */
  lemma RecoversOnly(img: Image, vs: seq<Visit>, blocks: seq<seq<int>>, qt: QTabs, qlum: Steps, qchr: Steps)
    requires img.Valid() && Distinct(vs) && (forall v :: v in vs <==> img.Has(v)) && Carries(qt, qlum, qchr)
    requires |vs| == |blocks| && (forall j :: 0 <= j < |blocks| ==> |blocks[j]| == 64) && CompsIn(COMPS_420, vs)
    requires Recovers(Place(map[], vs, blocks, COMPS_420, qt), img, qlum, qchr)
    ensures blocks == BlocksAt(img, vs)
  {
    hide Dequant, Zigzagged, Place, Distinct;
    forall i | 0 <= i < |vs|
      ensures blocks[i] == img.At(vs[i])
    {
      PlacedAt(vs, blocks, qt, qlum, qchr, i);
      DequantInjective(blocks[i], img.At(vs[i]), Zigzagged(if vs[i].c == 0 then qlum else qchr));
    }
  }

  // ----- the whole file -----

  lemma Order420(w: Dim, h: Dim, mw: nat, mh: nat)
    requires w == 16 * mw && h == 16 * mh
    ensures FrameOrder(Frame(w, h, COMPS_420)) == EncOrder(mw, mh, 0, 0, 0)
  {
    hide ScanOrder, EncOrder;
    assert MaxH(COMPS_420) == 2 && MaxV(COMPS_420) == 2 by {
      var c1, c2 := COMPS_420[..1], COMPS_420[..2];
      assert c2[..1] == c1 && c1[..0] == [];
      assert MaxH(c1) == 2 && MaxV(c1) == 2;
      assert MaxH(c2) == 2 && MaxV(c2) == 2;
    }
    assert Mcus(w, 2) == mw && Mcus(h, 2) == mh;
    SameOrder(COMPS_420, mw, mh, 0, 0);
  }

  /** The blocks of an image in coding order. */
  function Positions(img: Image): (vs: seq<Visit>)
    requires img.Valid()
    ensures AllIn(img, vs) && CompsIn(COMPS_420, vs)
  {
    EncOrderValid(img, 0, 0, 0);
    EncOrder(img.mw, img.mh, 0, 0, 0)
  }

  /** Every AC coefficient and every DC difference along the scan is in the range of baseline codes. */
  ghost predicate Codable(img: Image)
    requires img.Valid()
  {
    var vs := Positions(img);
    AllInRange(vs, BlocksAt(img, vs), [0, 0, 0])
  }

  function ScanData(k: Coder, img: Image): seq<byte>
    requires img.Valid()
  {
    Emitted(Padded(ScanBits(k, img))) + [0xFF, 0xD9]
  }

  lemma ScanBlocks(k: Coder, img: Image)
    requires k.IsBaseline() && img.Valid()
    ensures var vs := Positions(img);
            DecodeBlocks(ByteBits(Unstuff(ScanData(k, img))), vs, COMPS_420, CoderTabs(k), [0, 0, 0])
            == Some(BlocksAt(img, vs))
            <==> Codable(img)
  {
    hide DecodeBlocks, EncodeBlocks, EncOrder, AllInRange;
    var vs := Positions(img);
    var bits := ScanBits(k, img);
    SegmentBits(bits, [0xFF, 0xD9]);
    var pad := Padded(bits)[|bits|..];
    assert Padded(bits) == bits + pad;
    ScanRoundTripIff(k, img, vs, COMPS_420, CoderTabs(k), [0, 0, 0], pad);
  }

  lemma RunEnd(k: Coder, img: Image, st: State, o: Opts)
    requires img.Valid() && st.Valid() && st.decoded
    ensures Run(ScanData(k, img), st, o) == Done(st.frame.value, st.planes)
  {
    hide Skip, Stuff;
    var data := FullBytes(Padded(ScanBits(k, img)));
    SkipStuffed(data, 0xD9, []);
    Unit([MARKER, 0xD9]);
  }

  /** A file decodes to the encoded image, all blocks in place, exactly when the decoder accepts its
      size and every quantised coefficient is in range. */
  lemma FileRoundTripIff(w: Dim, h: Dim, qlum: Steps, qchr: Steps, k: Coder, img: Image, qt: QTabs, tabs: Tabs, o: Opts)
    requires k.IsBaseline() && img.Valid() && tabs.Valid() && !o.probe
    requires w == 16 * img.mw && h == 16 * img.mh && w >= 1 && h >= 1
    ensures var r := DecodeFile(FileBytes(w, h, qlum, qchr, k, img), qt, tabs, o);
            (r.Done? && r.frame == Frame(w, h, COMPS_420) && Recovers(r.planes, img, qlum, qchr))
            <==> SizeOk(w, h, o) && Codable(img)
    ensures !SizeOk(w, h, o) ==> DecodeFile(FileBytes(w, h, qlum, qchr, k, img), qt, tabs, o) == Fail
  {
    hide Run, Headers, SizeOk, Zigzagged, SetQt, EncOrder, DecodeBlocks, Unstuff, Place, Recovers, Codable, Distinct,
         ScanData;
    var st := State(qt, tabs, None, map[], false);
    var tail := ScanData(k, img);
    FileTail(w, h, qlum, qchr, k, img);
    BaselineLists(k);
    HeadersRead(w, h, qlum, qchr, k, tail, st, o);
    if SizeOk(w, h, o) {
      var ready := ScanState(st, w, h, qlum, qchr, k);
      var vs := Positions(img);
      Order420(w, h, img.mw, img.mh);
      ScanBlocks(k, img);
      EncOrderDistinct(img.mw, img.mh, 0, 0, 0);
      forall v: Visit {
        EncOrderComplete(img, v);
      }
      var bs := DecodeBlocks(ByteBits(Unstuff(tail)), vs, COMPS_420, CoderTabs(k), [0, 0, 0]);
      if bs.Some? {
        var s := ready.(planes := Place(map[], vs, bs.value, COMPS_420, ready.qt), decoded := true);
        RunEnd(k, img, s, o);
        PlacedRecovers(img, vs, ready.qt, qlum, qchr);
        if Recovers(s.planes, img, qlum, qchr) {
          RecoversOnly(img, vs, bs.value, ready.qt, qlum, qchr);
        }
      }
    }
  }

  lemma BaselineLists(k: Coder)
    requires k.IsBaseline()
    ensures Listing(k)
  {
    assert 0 in k.dcY.syms && 0 in k.dcC.syms;
  }

  lemma FileTail(w: Dim, h: Dim, qlum: Steps, qchr: Steps, k: Coder, img: Image)
    requires k.Valid() && img.Valid()
    ensures var d := FileBytes(w, h, qlum, qchr, k, img);
            |d| >= 2 && d[0] == 0xFF && d[1] == 0xD8 && d[2..] == Headers(w, h, qlum, qchr, k) + ScanData(k, img)
  {
  }

  /** Asking only for the dimensions gives them for every file the decoder would accept by size. */
  lemma ProbeFile(w: Dim, h: Dim, qlum: Steps, qchr: Steps, k: Coder, img: Image, qt: QTabs, tabs: Tabs, o: Opts)
    requires Listing(k) && img.Valid() && tabs.Valid() && o.probe && w >= 1 && h >= 1
    ensures DecodeFile(FileBytes(w, h, qlum, qchr, k, img), qt, tabs, o)
         == if SizeOk(w, h, o) then Probed(w, h) else Fail
  {
    hide Run, Headers, SizeOk, ScanData, Scan;
    FileTail(w, h, qlum, qchr, k, img);
    HeadersRead(w, h, qlum, qchr, k, ScanData(k, img), State(qt, tabs, None, map[], false), o);
  }
}
