/** The file format: what the encoder writes around the scan, what the decoder's marker loop reads,
    and the round trip of a whole file. */
module JpegFile {
  import opened Bits
  import opened Huffman
  import opened JpegBlock
  import opened JpegScan
  import opened JpegQuant

  const JPEG_MAX_W := 1280
  const JPEG_MAX_H := 800

  datatype Frame = Frame(fw: nat, fh: nat, comps: seq<Comp>) {
    predicate Valid() {
      && fw >= 1 && fh >= 1 && 1 <= |comps| <= 3
      && forall i :: 0 <= i < |comps| ==> 1 <= comps[i].h <= 4 && 1 <= comps[i].v <= 4
    }
  }

  type QTabs = q: seq<seq<byte>> | |q| == 4 && forall i :: 0 <= i < 4 ==> |q[i]| == 64
    witness seq(4, i => seq(64, j => 0))

  /** What the decoder knows between two markers. */
  datatype State = State(qt: QTabs, tabs: Tabs, frame: Option<Frame>, planes: map<Visit, seq<int>>, decoded: bool) {
    ghost predicate Valid() {
      tabs.Valid() && (frame.Some? ==> frame.value.Valid()) && (decoded ==> frame.Some?)
    }
  }

  /** Clamp on the dimensions (nonpositive means none), and whether only the dimensions are wanted. */
  datatype Opts = Opts(maxW: int, maxH: int, probe: bool)

  /** Done carries the dequantised blocks by position, ready for the inverse DCT. */
  datatype Result = Fail | Probed(w: nat, h: nat) | Done(frame: Frame, planes: map<Visit, seq<int>>)

  // ----- markers -----

  /** The next marker and the bytes after it; stuffed bytes and fill bytes are passed over. */
  function Skip(d: seq<byte>): (r: Option<(byte, seq<byte>)>)
    ensures r.Some? ==> |r.value.1| < |d|
    decreases |d|
  {
    if d == [] then None else if d[0] != MARKER then Skip(d[1..]) else SkipFill(d[1..])
  }

  function SkipFill(d: seq<byte>): (r: Option<(byte, seq<byte>)>)
    ensures r.Some? ==> |r.value.1| < |d|
    decreases |d|
  {
    if d == [] then None
    else if d[0] == MARKER then SkipFill(d[1..])
    else if d[0] == 0 then Skip(d[1..])
    else Some((d[0], d[1..]))
  }

  function Be16(d: seq<byte>): nat
    requires |d| >= 2
  {
    var hi: nat := d[0];
    256 * hi + d[1]
  }

  /** A segment's length without the length field itself, and the bytes after that field. */
  function SegLen(d: seq<byte>): (r: Option<(nat, seq<byte>)>)
    ensures r.Some? ==> |r.value.1| <= |d|
  {
    if |d| < 2 || Be16(d) < 2 then None else Some((Be16(d) - 2, d[2..]))
  }

  // ----- DQT -----

  function DqtBody(d: seq<byte>, left: int, qt: QTabs): (r: Option<(seq<byte>, QTabs)>)
    ensures r.Some? ==> |r.value.0| <= |d|
    decreases |d|
  {
    if left <= 0 || d == [] then Some((d, qt))
    else
      var n := if d[0] / 16 != 0 then 128 else 64;
      if d[0] % 16 > 3 || |d| < 1 + n then None
      else DqtBody(d[1 + n..], left - 1 - n, SetQt(qt, d[0] % 16, QtEntry(d[1..1 + n])))
  }

  function SetQt(qt: QTabs, i: nat, q: seq<byte>): (r: QTabs)
    requires i < 4 && |q| == 64
    ensures r[i] == q && forall j :: 0 <= j < 4 && j != i ==> r[j] == qt[j]
  {
    qt[i := q]
  }

  /** 64 one-byte steps, or the low bytes of 64 two-byte steps. */
  function QtEntry(d: seq<byte>): (q: seq<byte>)
    requires |d| == 64 || |d| == 128
    ensures |q| == 64
  {
    if |d| == 64 then d else seq(64, i requires 0 <= i < 64 => d[2 * i + 1])
  }

  // ----- DHT -----

  function SetTab(tabs: Tabs, cls: nat, th: nat, t: Table): (r: Tabs)
    requires tabs.Valid() && cls < 2 && th < 2 && t.Valid()
    ensures r.Valid()
  {
    if cls == 0 then tabs.(dc := tabs.dc[th := t]) else tabs.(ac := tabs.ac[th := t])
  }

  function DhtBody(d: seq<byte>, left: int, tabs: Tabs): (r: Option<(seq<byte>, Tabs)>)
    requires tabs.Valid()
    ensures r.Some? ==> |r.value.0| <= |d| && r.value.1.Valid()
    decreases |d|
  {
    if left <= 0 || d == [] then Some((d, tabs))
    else if d[0] % 16 > 1 || d[0] / 16 > 1 || |d| < 17 then None
    else
      var n := Total(d[1..17], 1);
      if n < 1 || n > MAX_HUFF || |d| < 17 + n then None
      else DhtBody(d[17 + n..], left - 17 - n, SetTab(tabs, d[0] / 16, d[0] % 16, CanonTable(d[1..17], d[17..17 + n])))
  }

  // ----- SOF -----

  function Comps(d: seq<byte>, n: nat): (r: Option<(seq<Comp>, seq<byte>)>)
    ensures r.Some? ==> |r.value.0| == n && |r.value.1| <= |d|
    ensures r.Some? ==> forall i :: 0 <= i < n ==> 1 <= r.value.0[i].h <= 4 && 1 <= r.value.0[i].v <= 4
  {
    if n == 0 then Some(([], d))
    else if |d| < 3 then None
    else
      var c := Comp(d[0], d[1] / 16, d[1] % 16, d[2]);
      if c.h < 1 || c.h > 4 || c.v < 1 || c.v > 4 then None
      else
        var r := Comps(d[3..], n - 1);
        if r.None? then None else Some(([c] + r.value.0, r.value.1))
  }

  predicate SizeOk(fw: nat, fh: nat, o: Opts) {
    && fw <= JPEG_MAX_W && fh <= JPEG_MAX_H
    && (o.maxW > 0 ==> fw <= o.maxW) && (o.maxH > 0 ==> fh <= o.maxH)
  }

  function Sof(d: seq<byte>, o: Opts): (r: Option<(seq<byte>, Frame)>)
    ensures r.Some? ==> |r.value.0| <= |d| && r.value.1.Valid()
  {
    if |d| < 8 || Be16(d) < 2 then None
    else
      var prec, fh, fw, nf := d[2], Be16(d[3..]), Be16(d[5..]), d[7];
      if prec != 8 || fh == 0 || fw == 0 || nf < 1 || nf > 3 || !SizeOk(fw, fh, o) then None
      else
        var cs := Comps(d[8..], nf);
        if cs.None? then None else Some((cs.value.1, Frame(fw, fh, cs.value.0)))
  }

  // ----- SOS and the scan -----

  /** The bytes after a scan header that fits the frame. */
  function Sos(d: seq<byte>, ncomp: nat): (r: Option<seq<byte>>)
    ensures r.Some? ==> |r.value| <= |d|
  {
    var n := 3 + 2 * ncomp;
    if |d| < n + 3 || Be16(d) < 2 || d[2] != ncomp then None
    else if d[n] != 0 || d[n + 1] != 63 || d[n + 2] != 0 then None
    else Some(d[n + 3..])
  }

  function MaxH(comps: seq<Comp>): (m: nat)
    ensures m >= 1 && forall i :: 0 <= i < |comps| ==> comps[i].h <= m
  {
    if comps == [] then 1
    else
      var l := comps[|comps| - 1].h;
      var m := MaxH(comps[..|comps| - 1]);
      if l > m then l else m
  }

  function MaxV(comps: seq<Comp>): (m: nat)
    ensures m >= 1 && forall i :: 0 <= i < |comps| ==> comps[i].v <= m
  {
    if comps == [] then 1
    else
      var l := comps[|comps| - 1].v;
      var m := MaxV(comps[..|comps| - 1]);
      if l > m then l else m
  }

  function Mcus(size: nat, max: nat): nat
    requires max >= 1
  {
    (size + max * 8 - 1) / (max * 8)
  }

  function FrameOrder(f: Frame): (vs: seq<Visit>)
    ensures forall v :: v in vs ==> v.c < |f.comps|
  {
    ScanOrder(f.comps, Mcus(f.fw, MaxH(f.comps)), Mcus(f.fh, MaxV(f.comps)), 0, 0, 0, 0, 0)
  }

  /** The steps of a component; an SOF may name a table the decoder does not have. */
  function StepsOf(qt: QTabs, comp: Comp): (q: seq<byte>)
    ensures |q| == 64
  {
    if comp.tq < 4 then qt[comp.tq] else seq(64, i => 0)
  }

  /** Stores the blocks at their positions, dequantised. */
  function Place(planes: map<Visit, seq<int>>, vs: seq<Visit>, blocks: seq<seq<int>>, comps: seq<Comp>, qt: QTabs)
    : map<Visit, seq<int>>
    requires |vs| == |blocks| && (forall v :: v in vs ==> v.c < |comps|)
    requires forall i :: 0 <= i < |blocks| ==> |blocks[i]| == 64
    decreases |vs|
  {
    if vs == [] then planes
    else Place(planes[vs[0] := Dequant(blocks[0], StepsOf(qt, comps[vs[0].c]))], vs[1..], blocks[1..], comps, qt)
  }

  function Scan(d: seq<byte>, st: State): (r: Option<State>)
    requires st.Valid() && st.frame.Some?
    ensures r.Some? ==> r.value.Valid()
  {
    var f := st.frame.value;
    var bs := DecodeBlocks(ByteBits(Unstuff(d)), FrameOrder(f), f.comps, st.tabs, [0, 0, 0]);
    if bs.None? then None
    else Some(st.(planes := Place(map[], FrameOrder(f), bs.value, f.comps, st.qt), decoded := true))
  }

  // ----- the marker loop -----

  function Run(d: seq<byte>, st: State, o: Opts): Result
    requires st.Valid()
    decreases |d|, 0
  {
    var m := Skip(d);
    if m.None? then Fail else Segment(m.value.0, m.value.1, st, o)
  }

  function Segment(m: byte, d: seq<byte>, st: State, o: Opts): Result
    requires st.Valid()
    decreases |d|, 1
  {
    if m == 0xD9 then
      if st.decoded then Done(st.frame.value, st.planes) else Fail
    else if m == 0xDB then
      var l := SegLen(d);
      if l.None? then Fail
      else
        var r := DqtBody(l.value.1, l.value.0, st.qt);
        if r.None? then Fail else Run(r.value.0, st.(qt := r.value.1), o)
    else if m == 0xC4 then
      var l := SegLen(d);
      if l.None? then Fail
      else
        var r := DhtBody(l.value.1, l.value.0, st.tabs);
        if r.None? then Fail else Run(r.value.0, st.(tabs := r.value.1), o)
    else if m == 0xC0 || m == 0xC1 || m == 0xC2 then
      var r := Sof(d, o);
      if r.None? then Fail else Run(r.value.0, st.(frame := Some(r.value.1)), o)
    else if m == 0xDA then
      if st.frame.None? then Fail
      else
        var r := Sos(d, |st.frame.value.comps|);
        if r.None? then Fail
        else if o.probe then Probed(st.frame.value.fw, st.frame.value.fh)
        else
          var s := Scan(r.value, st);
          if s.None? then Fail else Run(r.value, s.value, o)
    else if 0xE0 <= m <= 0xEF || m == 0xFE then
      var l := SegLen(d);
      if l.None? || l.value.0 > |l.value.1| then Fail else Run(l.value.1[l.value.0..], st, o)
    else if m == 0x01 || 0xD0 <= m <= 0xD7 then Run(d, st, o)
    else Fail
  }

  /** Decoding a file with the tables left over from earlier ones. */
  function DecodeFile(d: seq<byte>, qt: QTabs, tabs: Tabs, o: Opts): Result
    requires tabs.Valid()
  {
    if |d| < 2 || d[0] != 0xFF || d[1] != 0xD8 then Fail
    else Run(d[2..], State(qt, tabs, None, map[], false), o)
  }

  // ----- what the encoder writes -----

  type Dim = n: nat | n < 0x1_0000

  function DqtSeg(id: byte, q: Steps): seq<byte> {
    [0xFF, 0xDB, 0, 67, id] + Zigzagged(q)
  }

  function SofSeg(w: Dim, h: Dim): seq<byte> {
    [0xFF, 0xC0, 0, 17, 8, h / 256, h % 256, w / 256, w % 256, 3, 1, 0x22, 0, 2, 0x11, 1, 3, 0x11, 1]
  }

  function DhtSeg(id: byte, c: Code): seq<byte>
    requires c.Valid()
  {
    var n := 19 + |c.syms|;
    [0xFF, 0xC4, n / 256, n % 256, id] + c.counts + c.syms
  }

  const SOS_SEG: seq<byte> := [0xFF, 0xDA, 0, 12, 3, 1, 0x00, 2, 0x11, 3, 0x11, 0, 63, 0]

  function Headers(w: Dim, h: Dim, qlum: Steps, qchr: Steps, k: Coder): seq<byte>
    requires k.Valid()
  {
    DqtSeg(0, qlum) + (DqtSeg(1, qchr) + (SofSeg(w, h)
    + (DhtSeg(0x00, k.dcY) + (DhtSeg(0x10, k.acY) + (DhtSeg(0x01, k.dcC) + (DhtSeg(0x11, k.acC) + SOS_SEG))))))
  }

  function FileBytes(w: Dim, h: Dim, qlum: Steps, qchr: Steps, k: Coder, img: Image): seq<byte>
    requires k.Valid() && img.Valid()
  {
    [0xFF, 0xD8] + (Headers(w, h, qlum, qchr, k) + (Emitted(Padded(ScanBits(k, img))) + [0xFF, 0xD9]))
  }
}
