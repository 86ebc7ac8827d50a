/** Every baseline file decodes: any segments in any order before the scan, any one to three components with
    any sampling factors, and application data or comments anywhere. */
module JpegAnyFile {
  import opened Bits
  import opened BitIO
  import opened Huffman
  import opened JpegBlock
  import opened JpegScan
  import opened JpegQuant
  import opened JpegFile
  import opened JpegRoundTrip
  import opened JpegParts
  import opened JpegOrder

  // ----- the scan of any frame -----

  /** The codes of a component: the first pair for identifier 1, the second for all others. */
  function DcFor(k: Coder, c: Comp): Code { if c.id == 1 then k.dcY else k.dcC }

  function AcFor(k: Coder, c: Comp): Code { if c.id == 1 then k.acY else k.acC }

  type Blocks = seq<Block>

  /** The bits of the blocks of visits `vs`. */
  function CodeBlocks(k: Coder, comps: seq<Comp>, vs: seq<Visit>, bs: Blocks, pred: Preds): seq<bool>
    requires CompsIn(comps, vs) && |bs| == |vs|
    decreases |vs|
  {
    if vs == [] then []
    else
      var c := vs[0].c;
      BlockBits(DcFor(k, comps[c]), AcFor(k, comps[c]), bs[0], pred[c])
      + CodeBlocks(k, comps, vs[1..], bs[1..], pred[c := bs[0][0]])
  }

  /** All blocks in range are recovered, in order. */
  lemma {:induction false} CodedRoundTrip(k: Coder, comps: seq<Comp>, vs: seq<Visit>, bs: Blocks, pred: Preds,
                                          rest: seq<bool>)
    requires k.IsBaseline() && CompsIn(comps, vs) && |bs| == |vs| && AllInRange(vs, bs, pred)
    ensures DecodeBlocks(CodeBlocks(k, comps, vs, bs, pred) + rest, vs, comps, CoderTabs(k), pred) == Some(bs)
    decreases |vs|
  {
    hide BlockBits, DecodeBlock, InRange;
    if vs != [] {
      var c, q := vs[0].c, bs[0];
      var dc, ac := DcFor(k, comps[c]), AcFor(k, comps[c]);
      var bits, more := BlockBits(dc, ac, q, pred[c]), CodeBlocks(k, comps, vs[1..], bs[1..], pred[c := q[0]]);
      Assoc(bits, more, rest);
      BlockRoundTrip(dc, ac, q, pred[c], more + rest);
      CodedRoundTrip(k, comps, vs[1..], bs[1..], pred[c := q[0]], rest);
      assert [q] + bs[1..] == bs;
    }
  }

  // ----- files -----

  /** A scan header for `n` components; the decoder passes over the selectors. */
  function SosBytes(n: nat, selectors: seq<byte>): seq<byte>
    requires n <= 3 && |selectors| == 2 * n
  {
    [MARKER, 0xDA, 0, 6 + 2 * n, n] + (selectors + [0, 63, 0])
  }

  lemma SosBytesRead(n: nat, selectors: seq<byte>, tail: seq<byte>, st: State, o: Opts)
    requires st.Valid() && st.frame.Some? && n == |st.frame.value.comps| && |selectors| == 2 * n
    ensures Run(SosBytes(n, selectors) + tail, st, o)
         == if o.probe then Probed(st.frame.value.fw, st.frame.value.fh)
            else var s := Scan(tail, st); if s.None? then Fail else Run(tail, s.value, o)
  {
    hide Run, Scan;
    var d: seq<byte> := [0, 6 + 2 * n, n] + (selectors + ([0, 63, 0] + tail));
    assert SosBytes(n, selectors) + tail == [MARKER, 0xDA] + d;
    RunMarker(0xDA, d, st, o);
    var at := 3 + 2 * n;
    assert d[at..] == [0, 63, 0] + tail;
    assert d[at] == d[at..][0] && d[at + 1] == d[at..][1] && d[at + 2] == d[at..][2] && d[at + 3..] == d[at..][3..];
    assert d[at + 3..] == tail;
  }

  /** Starts with a marker. */
  predicate Marked(d: seq<byte>) { |d| >= 2 && d[0] == MARKER && d[1] != 0 && d[1] != MARKER }

  /** Rescanning entropy-coded data goes on at the marker that ends it. */
  lemma RunPast(data: seq<byte>, d: seq<byte>, st: State, o: Opts)
    requires st.Valid() && Marked(d)
    ensures Run(Stuff(data) + d, st, o) == Run(d, st, o)
  {
    hide Segment, Skip;
    assert d == [MARKER, d[1]] + d[2..];
    SkipStuffed(data, d[1], d[2..]);
    SkipHere(d[1], d[2..]);
  }

  /** Parts that tell nothing, and the end of the file. */
  function Ending(ts: seq<Part>): seq<byte>
    requires forall i :: 0 <= i < |ts| ==> ts[i].Ok()
  {
    PartsBytes(ts) + [MARKER, 0xD9]
  }

  ghost predicate AllIdle(ts: seq<Part>) {
    forall i :: 0 <= i < |ts| ==> ts[i].Ok() && ts[i].Idle()
  }

  lemma IdleMarked(p: Part)
    requires p.Ok() && p.Idle()
    ensures Marked(PartBytes(p))
  {
    hide QuantBytes, HuffBytes;
  }

  lemma EndingMarked(ts: seq<Part>)
    requires AllIdle(ts)
    ensures Marked(Ending(ts))
  {
    hide PartBytes, Part.Ok, Part.Idle;
    if ts != [] {
      IdleMarked(ts[0]);
      var more := PartsBytes(ts[1..]) + [MARKER, 0xD9];
      Assoc(PartBytes(ts[0]), PartsBytes(ts[1..]), [MARKER, 0xD9]);
      assert Ending(ts) == PartBytes(ts[0]) + more;
    }
  }

  lemma {:induction false} IdleTells(st: State, ts: seq<Part>, o: Opts)
    requires st.Valid() && AllIdle(ts)
    ensures TellAll(st, ts, o) == Some(st)
    decreases |ts|
  {
    if ts != [] {
      IdleTells(st, ts[1..], o);
    }
  }

  lemma EndingRead(ts: seq<Part>, st: State, o: Opts)
    requires st.Valid() && st.decoded && AllIdle(ts)
    ensures Run(Ending(ts), st, o) == Done(st.frame.value, st.planes)
  {
    hide Run, PartsBytes, TellAll, Part.Ok, Part.Idle;
    PartsRead(ts, [MARKER, 0xD9], st, o);
    IdleTells(st, ts, o);
    RunMarker(0xD9, [], st, o);
    Unit([MARKER, 0xD9]);
  }

  /** The blocks of the visits, in order. */
  function BlocksOf(vs: seq<Visit>, block: Visit -> Block): (bs: Blocks)
    ensures |bs| == |vs| && forall i :: 0 <= i < |vs| ==> bs[i] == block(vs[i])
  {
    seq(|vs|, i requires 0 <= i < |vs| => block(vs[i]))
  }

  function FrameBits(k: Coder, f: Frame, block: Visit -> Block): seq<bool>
    requires f.Valid()
  {
    CodeBlocks(k, f.comps, FrameOrder(f), BlocksOf(FrameOrder(f), block), [0, 0, 0])
  }

  /** A file: start, parts, scan header, the coded blocks of a frame, and the end. */
  function AnyBytes(ps: seq<Part>, selectors: seq<byte>, k: Coder, f: Frame, block: Visit -> Block, ts: seq<Part>)
    : seq<byte>
    requires (forall i :: 0 <= i < |ps| ==> ps[i].Ok()) && (forall i :: 0 <= i < |ts| ==> ts[i].Ok())
    requires f.Valid() && |selectors| == 2 * |f.comps|
  {
    [MARKER, 0xD8]
    + (PartsBytes(ps) + (SosBytes(|f.comps|, selectors) + (Emitted(Padded(FrameBits(k, f, block))) + Ending(ts))))
  }

  /** Every coefficient of every block of the frame is in the range of baseline codes. */
  ghost predicate Codes(f: Frame, block: Visit -> Block)
    requires f.Valid()
  {
    AllInRange(FrameOrder(f), BlocksOf(FrameOrder(f), block), [0, 0, 0])
  }

  /** The planes hold exactly the frame's blocks, each times the steps of its component. */
  ghost predicate Shows(planes: map<Visit, seq<int>>, f: Frame, block: Visit -> Block, qt: QTabs) {
    forall v: Visit ::
      && (v in planes <==> InFrame(f, v))
      && (InFrame(f, v) ==> planes[v] == Dequant(block(v), StepsOf(qt, f.comps[v.c])))
  }

  lemma ScanShows(k: Coder, f: Frame, block: Visit -> Block, ts: seq<Part>, st: State)
    requires k.IsBaseline() && st.Valid() && st.frame == Some(f) && st.tabs == CoderTabs(k)
    requires Codes(f, block) && AllIdle(ts)
    ensures var s := Scan(Emitted(Padded(FrameBits(k, f, block))) + Ending(ts), st);
            && s.Some? && s.value == st.(planes := s.value.planes, decoded := true)
            && Shows(s.value.planes, f, block, st.qt)
  {
    hide CodeBlocks, DecodeBlocks, FrameOrder, Ending, AllInRange, Ordered, InFrame, Emitted, Padded, Place,
         Dequant, Part.Ok, Part.Idle;
    var vs := FrameOrder(f);
    var bs, bits := BlocksOf(vs, block), FrameBits(k, f, block);
    EndingMarked(ts);
    SegmentBits(bits, Ending(ts));
    var pad := Padded(bits)[|bits|..];
    assert Padded(bits) == bits + pad;
    CodedRoundTrip(k, f.comps, vs, bs, [0, 0, 0], pad);
    FrameOrderIs(f);
    OrderedDistinct(f.comps, vs);
    forall v: Visit
      ensures var p := Place(map[], vs, bs, f.comps, st.qt);
              && (v in p <==> InFrame(f, v))
              && (InFrame(f, v) ==> p[v] == Dequant(block(v), StepsOf(st.qt, f.comps[v.c])))
    {
      PlaceKeys(map[], vs, bs, f.comps, st.qt, v);
      if v in vs {
        var i :| 0 <= i < |vs| && vs[i] == v;
        PlaceAt(map[], vs, bs, f.comps, st.qt, i);
      }
    }
  }

  /** What the decoder knows at the scan, unless it refuses the size. */
  function AtScan(ps: seq<Part>, qt: QTabs, tabs: Tabs, o: Opts): Option<State>
    requires tabs.Valid() && forall i :: 0 <= i < |ps| ==> ps[i].Ok()
  {
    TellAll(State(qt, tabs, None, map[], false), ps, o)
  }

  /** Any parts in any order that give the frame and the tables, then the coded blocks of the frame: the
      decoder returns the frame and every block, times its steps, at its position, and nothing else. */
  lemma AnyFileDecodes(ps: seq<Part>, selectors: seq<byte>, k: Coder, f: Frame, block: Visit -> Block, ts: seq<Part>,
                       qt: QTabs, tabs: Tabs, o: Opts)
    requires tabs.Valid() && !o.probe && k.IsBaseline() && f.Valid() && Codes(f, block)
    requires (forall i :: 0 <= i < |ps| ==> ps[i].Ok()) && AllIdle(ts) && |selectors| == 2 * |f.comps|
    requires var s := AtScan(ps, qt, tabs, o); s.Some? && s.value.frame == Some(f) && s.value.tabs == CoderTabs(k)
    ensures var r := DecodeFile(AnyBytes(ps, selectors, k, f, block, ts), qt, tabs, o);
            r.Done? && r.frame == f && Shows(r.planes, f, block, AtScan(ps, qt, tabs, o).value.qt)
  {
    hide Run, PartsBytes, SosBytes, FrameBits, Ending, Scan, Emitted, Padded, Codes, Shows, Part.Ok, Part.Idle;
    var st := AtScan(ps, qt, tabs, o).value;
    var data := Emitted(Padded(FrameBits(k, f, block))) + Ending(ts);
    var all := AnyBytes(ps, selectors, k, f, block, ts);
    assert all[2..] == PartsBytes(ps) + (SosBytes(|f.comps|, selectors) + data);
    PartsRead(ps, SosBytes(|f.comps|, selectors) + data, State(qt, tabs, None, map[], false), o);
    SosBytesRead(|f.comps|, selectors, data, st, o);
    ScanShows(k, f, block, ts, st);
    EndingMarked(ts);
    PastData(FrameBits(k, f, block), Ending(ts), Scan(data, st).value, o);
    EndingRead(ts, Scan(data, st).value, o);
  }

  /** Whatever follows the scan header, such a file gives its dimensions when asked for them. */
  lemma AnyProbe(ps: seq<Part>, selectors: seq<byte>, tail: seq<byte>, qt: QTabs, tabs: Tabs, o: Opts)
    requires tabs.Valid() && o.probe && forall i :: 0 <= i < |ps| ==> ps[i].Ok()
    requires var s := AtScan(ps, qt, tabs, o);
             s.Some? && s.value.frame.Some? && |selectors| == 2 * |s.value.frame.value.comps|
    ensures var f := AtScan(ps, qt, tabs, o).value.frame.value;
            DecodeFile([MARKER, 0xD8] + (PartsBytes(ps) + (SosBytes(|f.comps|, selectors) + tail)), qt, tabs, o)
            == Probed(f.fw, f.fh)
  {
    hide Run, PartsBytes, SosBytes, Part.Ok;
    var st := AtScan(ps, qt, tabs, o).value;
    var n := |st.frame.value.comps|;
    var rest := PartsBytes(ps) + (SosBytes(n, selectors) + tail);
    assert ([MARKER, 0xD8] + rest)[2..] == rest;
    PartsRead(ps, SosBytes(n, selectors) + tail, State(qt, tabs, None, map[], false), o);
    SosBytesRead(n, selectors, tail, st, o);
  }

  /** A frame header of a size that is not accepted. */
  predicate TooLarge(p: Part, o: Opts) { p.Head? && !SizeOk(p.w, p.h, o) }

  lemma {:induction false} TellsUnless(st: State, ps: seq<Part>, o: Opts)
    requires st.Valid() && forall i :: 0 <= i < |ps| ==> ps[i].Ok()
    ensures TellAll(st, ps, o).None? <==> exists i :: 0 <= i < |ps| && TooLarge(ps[i], o)
    decreases |ps|
  {
    hide Part.Ok, SizeOk;
    if ps != [] {
      var s := Tell(st, ps[0], o);
      if s.Some? {
        TellsUnless(s.value, ps[1..], o);
        forall i | 0 <= i < |ps| && TooLarge(ps[i], o)
          ensures 0 <= i - 1 < |ps[1..]| && TooLarge(ps[1..][i - 1], o)
        {
        }
      }
    }
  }

  /** Whatever follows, parts are refused if and only if one is a frame header of a size that is not accepted. */
  lemma AnyRefused(ps: seq<Part>, tail: seq<byte>, qt: QTabs, tabs: Tabs, o: Opts)
    requires tabs.Valid() && forall i :: 0 <= i < |ps| ==> ps[i].Ok()
    ensures AtScan(ps, qt, tabs, o).None? <==> exists i :: 0 <= i < |ps| && TooLarge(ps[i], o)
    ensures AtScan(ps, qt, tabs, o).None? ==>
              DecodeFile([MARKER, 0xD8] + (PartsBytes(ps) + tail), qt, tabs, o) == Fail
  {
    hide Run, PartsBytes, Part.Ok, TooLarge;
    var rest := PartsBytes(ps) + tail;
    assert ([MARKER, 0xD8] + rest)[2..] == rest;
    TellsUnless(State(qt, tabs, None, map[], false), ps, o);
    PartsRead(ps, tail, State(qt, tabs, None, map[], false), o);
  }

  lemma PastData(bits: seq<bool>, d: seq<byte>, st: State, o: Opts)
    requires st.Valid() && Marked(d)
    ensures Run(Emitted(Padded(bits)) + d, st, o) == Run(d, st, o)
  {
    hide Run, Padded;
    RunPast(FullBytes(Padded(bits)), d, st, o);
  }

  /** Application data or a comment right after the start of any file changes nothing. */
  lemma NoteFirst(m: byte, body: Body, d: seq<byte>, qt: QTabs, tabs: Tabs, o: Opts)
    requires tabs.Valid() && (0xE0 <= m <= 0xEF || m == 0xFE)
    ensures var n := |body| + 2;
            DecodeFile([0xFF, 0xD8] + ([0xFF, m, n / 256, n % 256] + body + d), qt, tabs, o)
            == DecodeFile([0xFF, 0xD8] + d, qt, tabs, o)
  {
    hide Run;
    var n := |body| + 2;
    assert Segmented(m, body) + d == [0xFF, m, n / 256, n % 256] + body + d;
    NoteRead(m, body, d, State(qt, tabs, None, map[], false), o);
    var a, b := [0xFF, 0xD8] + ([0xFF, m, n / 256, n % 256] + body + d), [0xFF, 0xD8] + d;
    assert a[2..] == Segmented(m, body) + d && b[2..] == d;
  }

  // ----- the encoder's files with more in them -----

  /** The header segments of the encoder. */
  function EncoderParts(w: Dim, h: Dim, qlum: Steps, qchr: Steps, k: Coder): seq<Part> {
    [Quants([Narrow(0, Zigzagged(qlum))]), Quants([Narrow(1, Zigzagged(qchr))]), Head(0xC0, w, h, COMPS_420),
     Huffs([HuffTable(0, 0, k.dcY)]), Huffs([HuffTable(1, 0, k.acY)]),
     Huffs([HuffTable(0, 1, k.dcC)]), Huffs([HuffTable(1, 1, k.acC)])]
  }

  lemma QuantPart(id: QuantId, q: Steps)
    ensures Quants([Narrow(id, Zigzagged(q))]).Ok()
    ensures PartBytes(Quants([Narrow(id, Zigzagged(q))])) == DqtSeg(id, q)
  {
    hide Zigzagged;
    var t := Narrow(id, Zigzagged(q));
    assert [t][1..] == [];
    assert QuantBytes([t]) == OneQuant(t) + QuantBytes([]) == OneQuant(t);
  }

  lemma HuffPart(cls: HuffId, id: HuffId, c: Code)
    requires c.Valid() && |c.syms| >= 1
    ensures Huffs([HuffTable(cls, id, c)]).Ok()
    ensures PartBytes(Huffs([HuffTable(cls, id, c)])) == DhtSeg(16 * cls + id, c)
  {
    hide Kraft, Total;
    var t := HuffTable(cls, id, c);
    assert [t][1..] == [];
    assert HuffBytes([t]) == OneHuff(t) + HuffBytes([]) == OneHuff(t);
    var n := 19 + |c.syms|;
    assert DhtSeg(16 * cls + id, c) == [MARKER, 0xC4] + ([n / 256, n % 256] + OneHuff(t));
  }

  lemma CompBytes420()
    ensures CompBytes(COMPS_420) == [1, 0x22, 0, 2, 0x11, 1, 3, 0x11, 1]
  {
    var two, one := [Comp(2, 1, 1, 1), Comp(3, 1, 1, 1)], [Comp(3, 1, 1, 1)];
    assert one[1..] == [] && CompBytes(one) == [3, 0x11, 1];
    assert two[1..] == one && CompBytes(two) == [2, 0x11, 1] + CompBytes(one);
    assert COMPS_420[1..] == two;
  }

  lemma HeadPart(w: Dim, h: Dim)
    requires w >= 1 && h >= 1
    ensures Head(0xC0, w, h, COMPS_420).Ok() && PartBytes(Head(0xC0, w, h, COMPS_420)) == SofSeg(w, h)
  {
    hide CompBytes;
    CompBytes420();
  }

  lemma PartsNext(p: Part, ps: seq<Part>)
    requires p.Ok() && forall i :: 0 <= i < |ps| ==> ps[i].Ok()
    ensures PartsBytes([p] + ps) == PartBytes(p) + PartsBytes(ps)
  {
    hide Part.Ok, PartBytes;
    assert ([p] + ps)[1..] == ps;
  }

  /** The encoder's headers are those parts and its scan header. */
  lemma HeadersAreParts(w: Dim, h: Dim, qlum: Steps, qchr: Steps, k: Coder, tail: seq<byte>)
    requires w >= 1 && h >= 1 && Listing(k)
    ensures forall i :: 0 <= i < 7 ==> EncoderParts(w, h, qlum, qchr, k)[i].Ok()
    ensures Headers(w, h, qlum, qchr, k) + tail == PartsBytes(EncoderParts(w, h, qlum, qchr, k)) + (SOS_SEG + tail)
  {
    hide Part.Ok, PartBytes, PartsBytes, DqtSeg, DhtSeg, SofSeg, Headers, Zigzagged, Kraft, Total;
    var ps := EncoderParts(w, h, qlum, qchr, k);
    QuantPart(0, qlum);
    QuantPart(1, qchr);
    HeadPart(w, h);
    HuffPart(0, 0, k.dcY);
    HuffPart(1, 0, k.acY);
    HuffPart(0, 1, k.dcC);
    HuffPart(1, 1, k.acC);
    assert PartsBytes(ps) == PartBytes(ps[0]) + (PartBytes(ps[1]) + (PartBytes(ps[2]) + (PartBytes(ps[3])
        + (PartBytes(ps[4]) + (PartBytes(ps[5]) + PartBytes(ps[6])))))) by {
      SevenParts(ps);
    }
    HeadersAppend(w, h, qlum, qchr, k, tail);
    Regroup(PartBytes(ps[0]), PartBytes(ps[1]), PartBytes(ps[2]), PartBytes(ps[3]), PartBytes(ps[4]), PartBytes(ps[5]),
            PartBytes(ps[6]), SOS_SEG + tail);
  }

  lemma SevenParts(ps: seq<Part>)
    requires |ps| == 7 && forall i :: 0 <= i < 7 ==> ps[i].Ok()
    ensures PartsBytes(ps) == PartBytes(ps[0]) + (PartBytes(ps[1]) + (PartBytes(ps[2]) + (PartBytes(ps[3])
                              + (PartBytes(ps[4]) + (PartBytes(ps[5]) + PartBytes(ps[6]))))))
  {
    hide Part.Ok, PartBytes, PartsBytes;
    assert ps == [ps[0]] + ps[1..] && ps[1..] == [ps[1]] + ps[2..] && ps[2..] == [ps[2]] + ps[3..];
    assert ps[3..] == [ps[3]] + ps[4..] && ps[4..] == [ps[4]] + ps[5..] && ps[5..] == [ps[5]] + ps[6..];
    assert ps[6..] == [ps[6]] + [];
    PartsNext(ps[0], ps[1..]);
    PartsNext(ps[1], ps[2..]);
    PartsNext(ps[2], ps[3..]);
    PartsNext(ps[3], ps[4..]);
    PartsNext(ps[4], ps[5..]);
    PartsNext(ps[5], ps[6..]);
    PartsNext(ps[6], []);
    NoParts();
    Unit(PartBytes(ps[6]));
  }

  lemma NoParts()
    ensures PartsBytes([]) == []
  {
  }

  lemma Regroup(a: seq<byte>, b: seq<byte>, c: seq<byte>, d: seq<byte>, e: seq<byte>, f: seq<byte>, g: seq<byte>,
                t: seq<byte>)
    ensures (a + (b + (c + (d + (e + (f + g)))))) + t == a + (b + (c + (d + (e + (f + (g + t))))))
  {
    Assoc(a, b + (c + (d + (e + (f + g)))), t);
    Assoc(b, c + (d + (e + (f + g))), t);
    Assoc(c, d + (e + (f + g)), t);
    Assoc(d, e + (f + g), t);
    Assoc(e, f + g, t);
    Assoc(f, g, t);
  }

  /** The encoder's file with other parts where its headers are. */
  function WithParts(ps: seq<Part>, k: Coder, img: Image): seq<byte>
    requires img.Valid() && forall i :: 0 <= i < |ps| ==> ps[i].Ok()
  {
    [MARKER, 0xD8] + (PartsBytes(ps) + (SOS_SEG + ScanData(k, img)))
  }

  /** Application data, comments and lone markers between the encoder's headers change nothing, whether the
      file is decoded or only asked for its dimensions. */
  lemma NotesIgnored(ps: seq<Part>, w: Dim, h: Dim, qlum: Steps, qchr: Steps, k: Coder, img: Image, qt: QTabs,
                     tabs: Tabs, o: Opts)
    requires w >= 1 && h >= 1 && Listing(k) && img.Valid() && tabs.Valid()
    requires (forall i :: 0 <= i < |ps| ==> ps[i].Ok()) && Telling(ps) == EncoderParts(w, h, qlum, qchr, k)
    ensures DecodeFile(WithParts(ps, k, img), qt, tabs, o)
         == DecodeFile(FileBytes(w, h, qlum, qchr, k, img), qt, tabs, o)
  {
    hide Run, PartsBytes, Part.Ok, Headers, FileBytes, ScanData, Telling, EncoderParts;
    var st, tail := State(qt, tabs, None, map[], false), ScanData(k, img);
    FileTail(w, h, qlum, qchr, k, img);
    HeadersAreParts(w, h, qlum, qchr, k, tail);
    IdleIgnored(ps, SOS_SEG + tail, st, o);
    assert WithParts(ps, k, img)[2..] == PartsBytes(ps) + (SOS_SEG + tail);
  }

  /** So such a file decodes to the image exactly under the conditions of the encoder's own, ... */
  lemma NotedRoundTripIff(ps: seq<Part>, w: Dim, h: Dim, qlum: Steps, qchr: Steps, k: Coder, img: Image, qt: QTabs,
                          tabs: Tabs, o: Opts)
    requires k.IsBaseline() && img.Valid() && tabs.Valid() && !o.probe
    requires w == 16 * img.mw && h == 16 * img.mh && w >= 1 && h >= 1
    requires (forall i :: 0 <= i < |ps| ==> ps[i].Ok()) && Telling(ps) == EncoderParts(w, h, qlum, qchr, k)
    ensures var r := DecodeFile(WithParts(ps, k, img), qt, tabs, o);
            (r.Done? && r.frame == Frame(w, h, COMPS_420) && Recovers(r.planes, img, qlum, qchr))
            <==> SizeOk(w, h, o) && Codable(img)
  {
    hide DecodeFile, FileBytes, WithParts, Part.Ok, Telling, EncoderParts, SizeOk, Codable, Recovers;
    BaselineLists(k);
    NotesIgnored(ps, w, h, qlum, qchr, k, img, qt, tabs, o);
    FileRoundTripIff(w, h, qlum, qchr, k, img, qt, tabs, o);
  }

  /** ... and gives its dimensions. */
  lemma NotedProbe(ps: seq<Part>, w: Dim, h: Dim, qlum: Steps, qchr: Steps, k: Coder, img: Image, qt: QTabs, tabs: Tabs,
                   o: Opts)
    requires Listing(k) && img.Valid() && tabs.Valid() && o.probe && w >= 1 && h >= 1
    requires (forall i :: 0 <= i < |ps| ==> ps[i].Ok()) && Telling(ps) == EncoderParts(w, h, qlum, qchr, k)
    ensures DecodeFile(WithParts(ps, k, img), qt, tabs, o) == if SizeOk(w, h, o) then Probed(w, h) else Fail
  {
    hide DecodeFile, FileBytes, WithParts, Part.Ok, Telling, EncoderParts, SizeOk;
    NotesIgnored(ps, w, h, qlum, qchr, k, img, qt, tabs, o);
    ProbeFile(w, h, qlum, qchr, k, img, qt, tabs, o);
  }
}
