/** The segments a baseline file may have before its scan, and what the decoder's marker loop makes of them. */
module JpegParts {
  import opened Bits
  import opened Huffman
  import opened JpegBlock
  import opened JpegScan
  import opened JpegFile
  import opened JpegRoundTrip

  type Zz64 = s: seq<byte> | |s| == 64 witness seq(64, i => 1)

  type QuantId = n: nat | n < 4

  type HuffId = n: nat | n < 2

  type Body = s: seq<byte> | |s| <= 65533

  /** A quantiser table in zigzag order: steps of one byte, or of two of which the low one is kept. */
  datatype QuantTable = Narrow(id: QuantId, steps: Zz64) | Wide(id: QuantId, high: Zz64, steps: Zz64)

  /** A Huffman table of class 0 (DC) or 1 (AC). */
  datatype HuffTable = HuffTable(cls: HuffId, id: HuffId, code: Code) {
    predicate Ok() { 1 <= Total(code.counts, 1) == |code.syms| <= MAX_HUFF }
  }

  /** Application data and comments, markers that stand alone, quantiser tables, Huffman tables, and the
      frame header. */
  datatype Part =
    | Note(m: byte, body: Body)
    | Lone(m: byte)
    | Quants(qs: seq<QuantTable>)
    | Huffs(hs: seq<HuffTable>)
    | Head(m: byte, w: Dim, h: Dim, comps: seq<Comp>)
  {
    predicate Ok() {
      match this
      case Note(m, body) => 0xE0 <= m <= 0xEF || m == 0xFE
      case Lone(m) => m == 0x01 || 0xD0 <= m <= 0xD7
      case Quants(qs) => |QuantBytes(qs)| <= 65533
      case Huffs(hs) => (forall i :: 0 <= i < |hs| ==> hs[i].Ok()) && |HuffBytes(hs)| <= 65533
      case Head(m, w, h, comps) => 0xC0 <= m <= 0xC2 && w >= 1 && h >= 1 && 1 <= |comps| <= 3 && CompsOk(comps)
    }

    /** Tells the decoder nothing. */
    predicate Idle() { Note? || Lone? }
  }

  predicate CompsOk(comps: seq<Comp>) {
    forall i :: 0 <= i < |comps| ==> 1 <= comps[i].h <= 4 && 1 <= comps[i].v <= 4
  }

  // ----- the bytes of a part -----

  function Paired(a: Zz64, b: Zz64): (r: seq<byte>)
    ensures |r| == 128 && forall i :: 0 <= i < 64 ==> r[2 * i] == a[i] && r[2 * i + 1] == b[i]
  {
    seq(128, k requires 0 <= k < 128 => if k % 2 == 0 then a[k / 2] else b[k / 2])
  }

  function OneQuant(q: QuantTable): seq<byte> {
    match q
    case Narrow(id, steps) => [id] + steps
    case Wide(id, high, steps) => [16 + id] + Paired(high, steps)
  }

  function QuantBytes(qs: seq<QuantTable>): seq<byte> {
    if qs == [] then [] else OneQuant(qs[0]) + QuantBytes(qs[1..])
  }

  function OneHuff(h: HuffTable): seq<byte> { [16 * h.cls + h.id] + (h.code.counts + h.code.syms) }

  function HuffBytes(hs: seq<HuffTable>): seq<byte> {
    if hs == [] then [] else OneHuff(hs[0]) + HuffBytes(hs[1..])
  }

  function CompBytes(comps: seq<Comp>): (r: seq<byte>)
    requires CompsOk(comps)
    ensures |r| == 3 * |comps|
  {
    if comps == [] then [] else [comps[0].id, 16 * comps[0].h + comps[0].v, comps[0].tq] + CompBytes(comps[1..])
  }

  /** A marker with a length field and that many bytes. */
  function Segmented(m: byte, body: Body): seq<byte> {
    var n := |body| + 2;
    [MARKER, m] + ([n / 256, n % 256] + body)
  }

  function PartBytes(p: Part): seq<byte>
    requires p.Ok()
  {
    match p
    case Note(m, body) => Segmented(m, body)
    case Lone(m) => [MARKER, m]
    case Quants(qs) => Segmented(0xDB, QuantBytes(qs))
    case Huffs(hs) => Segmented(0xC4, HuffBytes(hs))
    case Head(m, w, h, comps) =>
      Segmented(m, [8, h / 256, h % 256, w / 256, w % 256, |comps|] + CompBytes(comps))
  }

  function PartsBytes(ps: seq<Part>): seq<byte>
    requires forall i :: 0 <= i < |ps| ==> ps[i].Ok()
  {
    if ps == [] then [] else PartBytes(ps[0]) + PartsBytes(ps[1..])
  }

  // ----- what a part tells -----

  function TellQuants(qt: QTabs, qs: seq<QuantTable>): QTabs
    decreases |qs|
  {
    if qs == [] then qt else TellQuants(SetQt(qt, qs[0].id, qs[0].steps), qs[1..])
  }

  function TellHuffs(tabs: Tabs, hs: seq<HuffTable>): (r: Tabs)
    requires tabs.Valid() && forall i :: 0 <= i < |hs| ==> hs[i].Ok()
    ensures r.Valid()
    decreases |hs|
  {
    if hs == [] then tabs
    else
      assert hs[0].Ok();
      TellHuffs(SetTab(tabs, hs[0].cls, hs[0].id, hs[0].code.Tab()), hs[1..])
  }

  /** What the decoder knows after a part, unless it refuses the size. */
  function Tell(st: State, p: Part, o: Opts): (r: Option<State>)
    requires st.Valid() && p.Ok()
    ensures r.Some? ==> r.value.Valid()
  {
    match p
    case Note(_, _) => Some(st)
    case Lone(_) => Some(st)
    case Quants(qs) => Some(st.(qt := TellQuants(st.qt, qs)))
    case Huffs(hs) => Some(st.(tabs := TellHuffs(st.tabs, hs)))
    case Head(m, w, h, comps) => if SizeOk(w, h, o) then Some(st.(frame := Some(Frame(w, h, comps)))) else None
  }

  function TellAll(st: State, ps: seq<Part>, o: Opts): (r: Option<State>)
    requires st.Valid() && forall i :: 0 <= i < |ps| ==> ps[i].Ok()
    ensures r.Some? ==> r.value.Valid()
    decreases |ps|
  {
    if ps == [] then Some(st)
    else
      var s := Tell(st, ps[0], o);
      if s.None? then None else TellAll(s.value, ps[1..], o)
  }

  // ----- the decoder reads every part -----

  lemma SegmentedRead(m: byte, body: Body, tail: seq<byte>, st: State, o: Opts)
    requires st.Valid() && m != 0 && m != MARKER
    ensures var n := |body| + 2;
            && Run(Segmented(m, body) + tail, st, o) == Segment(m, [n / 256, n % 256] + (body + tail), st, o)
            && SegLen([n / 256, n % 256] + (body + tail)) == Some((|body|, body + tail))
  {
    hide Run, Segment;
    var n := |body| + 2;
    var len: seq<byte> := [n / 256, n % 256];
    Assoc([MARKER, m], len + body, tail);
    Assoc(len, body, tail);
    RunMarker(m, len + (body + tail), st, o);
    SegLenOf(n, body + tail);
  }

  lemma NoteRead(m: byte, body: Body, tail: seq<byte>, st: State, o: Opts)
    requires st.Valid() && (0xE0 <= m <= 0xEF || m == 0xFE)
    ensures Run(Segmented(m, body) + tail, st, o) == Run(tail, st, o)
  {
    hide Run, SegLen, Segmented;
    SegmentedRead(m, body, tail, st, o);
    assert (body + tail)[|body|..] == tail;
  }

  /** A length field that promises more than there is fails. */
  lemma NoteCut(m: byte, n: nat, tail: seq<byte>, st: State, o: Opts)
    requires st.Valid() && (0xE0 <= m <= 0xEF || m == 0xFE) && n < 0x1_0000 && (n < 2 || |tail| < n - 2)
    ensures Run([MARKER, m] + ([n / 256, n % 256] + tail), st, o) == Fail
  {
    hide Run;
    var d: seq<byte> := [n / 256, n % 256] + tail;
    RunMarker(m, d, st, o);
    assert d[2..] == tail && Be16(d) == n;
  }

  lemma LoneRead(m: byte, tail: seq<byte>, st: State, o: Opts)
    requires st.Valid() && (m == 0x01 || 0xD0 <= m <= 0xD7)
    ensures Run([MARKER, m] + tail, st, o) == Run(tail, st, o)
  {
    hide Run;
    RunMarker(m, tail, st, o);
  }

  /** Every other marker fails. */
  lemma OtherFails(m: byte, tail: seq<byte>, st: State, o: Opts)
    requires st.Valid() && m != 0 && m != MARKER && m != 0x01 && m !in {0xC0, 0xC1, 0xC2, 0xC4, 0xFE}
    requires !(0xD0 <= m <= 0xD7) && !(0xD9 <= m <= 0xDB) && !(0xE0 <= m <= 0xEF)
    ensures Run([MARKER, m] + tail, st, o) == Fail
  {
    hide Run;
    RunMarker(m, tail, st, o);
  }

  /** One entry of a DQT segment, by its first byte. */
  lemma DqtNext(b: byte, entry: seq<byte>, left: nat, tail: seq<byte>, qt: QTabs)
    requires b % 16 < 4 && |entry| == if b / 16 != 0 then 128 else 64
    ensures DqtBody([b] + entry + tail, 1 + |entry| + left, qt)
         == DqtBody(tail, left, SetQt(qt, b % 16, QtEntry(entry)))
  {
    hide SetQt, QtEntry;
    var d := [b] + entry + tail;
    var n := |entry|;
    assert d[0] == b && d[1..1 + n] == entry && d[1 + n..] == tail;
  }

  lemma LowBytes(high: Zz64, steps: Zz64)
    ensures QtEntry(Paired(high, steps)) == steps
  {
    hide Paired;
  }

  lemma OneQuantRead(q: QuantTable, left: nat, tail: seq<byte>, qt: QTabs)
    ensures DqtBody(OneQuant(q) + tail, |OneQuant(q)| + left, qt) == DqtBody(tail, left, SetQt(qt, q.id, q.steps))
  {
    hide DqtBody, SetQt, Paired, QtEntry;
    match q
    case Narrow(id, steps) =>
      DqtNext(id, steps, left, tail, qt);
      ShortEntry(steps);
    case Wide(id, high, steps) =>
      DqtNext(16 + id, Paired(high, steps), left, tail, qt);
      LowBytes(high, steps);
  }

  lemma ShortEntry(steps: Zz64)
    ensures QtEntry(steps) == steps
  {
  }

  lemma {:induction false} QuantsRead(qs: seq<QuantTable>, tail: seq<byte>, qt: QTabs)
    ensures DqtBody(QuantBytes(qs) + tail, |QuantBytes(qs)|, qt) == Some((tail, TellQuants(qt, qs)))
    decreases |qs|
  {
    hide OneQuant, SetQt;
    if qs == [] {
      assert [] + tail == tail;
    } else {
      var rest := QuantBytes(qs[1..]);
      Assoc(OneQuant(qs[0]), rest, tail);
      OneQuantRead(qs[0], |rest|, rest + tail, qt);
      QuantsRead(qs[1..], tail, SetQt(qt, qs[0].id, qs[0].steps));
    }
  }

  lemma OneHuffRead(h: HuffTable, left: nat, tail: seq<byte>, tabs: Tabs)
    requires tabs.Valid() && h.Ok()
    ensures DhtBody(OneHuff(h) + tail, |OneHuff(h)| + left, tabs)
         == DhtBody(tail, left, SetTab(tabs, h.cls, h.id, h.code.Tab()))
  {
    hide SetTab, CanonTable, Total;
    var d, n := OneHuff(h) + tail, |h.code.syms|;
    assert d[0] == 16 * h.cls + h.id && d[1..17] == h.code.counts && d[17..17 + n] == h.code.syms;
    assert d[17 + n..] == tail;
  }

  lemma {:induction false} HuffsRead(hs: seq<HuffTable>, tail: seq<byte>, tabs: Tabs)
    requires tabs.Valid() && forall i :: 0 <= i < |hs| ==> hs[i].Ok()
    ensures DhtBody(HuffBytes(hs) + tail, |HuffBytes(hs)|, tabs) == Some((tail, TellHuffs(tabs, hs)))
    decreases |hs|
  {
    hide OneHuff, SetTab, CanonTable, Total;
    if hs == [] {
      assert [] + tail == tail;
    } else {
      var rest := HuffBytes(hs[1..]);
      Assoc(OneHuff(hs[0]), rest, tail);
      OneHuffRead(hs[0], |rest|, rest + tail, tabs);
      HuffsRead(hs[1..], tail, SetTab(tabs, hs[0].cls, hs[0].id, hs[0].code.Tab()));
    }
  }

  lemma {:induction false} CompsBytesRead(comps: seq<Comp>, tail: seq<byte>)
    requires CompsOk(comps)
    ensures Comps(CompBytes(comps) + tail, |comps|) == Some((comps, tail))
    decreases |comps|
  {
    hide Comps;
    if comps == [] {
      assert [] + tail == tail;
      NoComps(tail);
    } else {
      var c, rest := comps[0], CompBytes(comps[1..]);
      var sf: byte := 16 * c.h + c.v;
      Assoc([c.id, sf, c.tq], rest, tail);
      CompsBytesRead(comps[1..], tail);
      Factors(c.h, c.v);
      CompRead(c.id, sf, c.tq, rest + tail, |comps| - 1);
      assert [c] + comps[1..] == comps;
    }
  }

  lemma NoComps(tail: seq<byte>)
    ensures Comps(tail, 0) == Some(([], tail))
  {
  }

  lemma Factors(h: nat, v: nat)
    requires 1 <= h <= 4 && 1 <= v <= 4
    ensures (16 * h + v) / 16 == h && (16 * h + v) % 16 == v
  {
  }

  lemma HeadRead(m: byte, w: Dim, h: Dim, comps: seq<Comp>, tail: seq<byte>, st: State, o: Opts)
    requires st.Valid() && Head(m, w, h, comps).Ok()
    ensures Run(PartBytes(Head(m, w, h, comps)) + tail, st, o)
         == if SizeOk(w, h, o) then Run(tail, st.(frame := Some(Frame(w, h, comps))), o) else Fail
  {
    hide Run, Comps, CompBytes, SizeOk, Segmented;
    var fixed: seq<byte> := [8, h / 256, h % 256, w / 256, w % 256, |comps|];
    var body := fixed + CompBytes(comps);
    var n := |body| + 2;
    SegmentedRead(m, body, tail, st, o);
    Assoc(fixed, CompBytes(comps), tail);
    var d: seq<byte> := [n / 256, n % 256] + (fixed + (CompBytes(comps) + tail));
    assert d[8..] == CompBytes(comps) + tail;
    assert Be16(d) == n && Be16(d[3..]) == h && Be16(d[5..]) == w && d[2] == 8 && d[7] == |comps|;
    CompsBytesRead(comps, tail);
  }

  /** The marker loop reads any part where it stands, whatever it knew before. */
  lemma PartRead(p: Part, tail: seq<byte>, st: State, o: Opts)
    requires st.Valid() && p.Ok()
    ensures Run(PartBytes(p) + tail, st, o)
         == var s := Tell(st, p, o); if s.None? then Fail else Run(tail, s.value, o)
  {
    hide Run, DqtBody, DhtBody, SegLen, Segmented, QuantBytes, HuffBytes, TellQuants, TellHuffs, SizeOk, CompBytes;
    match p
    case Note(m, body) => NoteRead(m, body, tail, st, o);
    case Lone(m) => LoneRead(m, tail, st, o);
    case Quants(qs) =>
      SegmentedRead(0xDB, QuantBytes(qs), tail, st, o);
      QuantsRead(qs, tail, st.qt);
    case Huffs(hs) =>
      SegmentedRead(0xC4, HuffBytes(hs), tail, st, o);
      HuffsRead(hs, tail, st.tabs);
    case Head(m, w, h, comps) => HeadRead(m, w, h, comps, tail, st, o);
  }

  lemma {:induction false} PartsRead(ps: seq<Part>, tail: seq<byte>, st: State, o: Opts)
    requires st.Valid() && forall i :: 0 <= i < |ps| ==> ps[i].Ok()
    ensures Run(PartsBytes(ps) + tail, st, o)
         == var s := TellAll(st, ps, o); if s.None? then Fail else Run(tail, s.value, o)
    decreases |ps|
  {
    hide Run, Tell, PartBytes, Part.Ok;
    if ps == [] {
      assert [] + tail == tail;
    } else {
      var rest := PartsBytes(ps[1..]);
      Assoc(PartBytes(ps[0]), rest, tail);
      PartRead(ps[0], rest + tail, st, o);
      var s := Tell(st, ps[0], o);
      if s.Some? {
        PartsRead(ps[1..], tail, s.value, o);
      }
    }
  }

  // ----- idle parts -----

  /** The parts that tell something. */
  function Telling(ps: seq<Part>): (r: seq<Part>)
    ensures forall p :: p in r ==> p in ps && !p.Idle()
  {
    if ps == [] then [] else (if ps[0].Idle() then [] else [ps[0]]) + Telling(ps[1..])
  }

  lemma {:induction false} TellTelling(st: State, ps: seq<Part>, o: Opts)
    requires st.Valid() && forall i :: 0 <= i < |ps| ==> ps[i].Ok()
    ensures forall i :: 0 <= i < |Telling(ps)| ==> Telling(ps)[i].Ok()
    ensures TellAll(st, Telling(ps), o) == TellAll(st, ps, o)
    decreases |ps|
  {
    hide Part.Ok, TellQuants, TellHuffs, SizeOk;
    if ps != [] {
      var t := Telling(ps[1..]);
      if ps[0].Idle() {
        assert Telling(ps) == t;
        TellTelling(st, ps[1..], o);
      } else {
        assert Telling(ps)[1..] == t;
        var s := Tell(st, ps[0], o);
        TellTelling(if s.Some? then s.value else st, ps[1..], o);
      }
    }
  }

  /** Application data, comments and lone markers change nothing, wherever they stand. */
  lemma IdleIgnored(ps: seq<Part>, tail: seq<byte>, st: State, o: Opts)
    requires st.Valid() && forall i :: 0 <= i < |ps| ==> ps[i].Ok()
    ensures forall i :: 0 <= i < |Telling(ps)| ==> Telling(ps)[i].Ok()
    ensures Run(PartsBytes(ps) + tail, st, o) == Run(PartsBytes(Telling(ps)) + tail, st, o)
  {
    hide Run, PartsBytes, TellAll, Telling, Part.Ok;
    TellTelling(st, ps, o);
    PartsRead(ps, tail, st, o);
    PartsRead(Telling(ps), tail, st, o);
  }

  // ----- what is refused -----

  /** A file that does not start as one. */
  lemma NotJpeg(d: seq<byte>, qt: QTabs, tabs: Tabs, o: Opts)
    requires tabs.Valid() && (|d| < 2 || d[0] != 0xFF || d[1] != 0xD8)
    ensures DecodeFile(d, qt, tabs, o) == Fail
  {
  }

  /** No marker at all. */
  lemma NoMarker(d: seq<byte>, st: State, o: Opts)
    requires st.Valid() && 0xFF !in d
    ensures Run(d, st, o) == Fail
  {
    hide Segment;
    NoneSkipped(d);
  }

  lemma {:induction false} NoneSkipped(d: seq<byte>)
    requires 0xFF !in d
    ensures Skip(d) == None
  {
    if d != [] {
      NoneSkipped(d[1..]);
    }
  }

  /** The end before any scan, a scan before any frame header. */
  lemma OutOfOrder(tail: seq<byte>, st: State, o: Opts)
    requires st.Valid()
    ensures !st.decoded ==> Run([0xFF, 0xD9] + tail, st, o) == Fail
    ensures st.frame.None? ==> Run([0xFF, 0xDA] + tail, st, o) == Fail
  {
    hide Run, Sos, Scan;
    RunMarker(0xD9, tail, st, o);
    RunMarker(0xDA, tail, st, o);
  }

  /** A scan header for another number of components, or one that is not of a whole sequential scan. */
  lemma OtherScan(d: seq<byte>, st: State, o: Opts)
    requires st.Valid() && st.frame.Some?
    requires var n := |st.frame.value.comps|;
             |d| < 6 + 2 * n || d[2] != n || d[3 + 2 * n] != 0 || d[4 + 2 * n] != 63 || d[5 + 2 * n] != 0
    ensures Run([0xFF, 0xDA] + d, st, o) == Fail
  {
    hide Run, Scan;
    RunMarker(0xDA, d, st, o);
  }

  /** A frame header of another precision, without a dimension, or with no or more than three components, or
      one whose sampling factors are not from 1 to 4. */
  lemma OtherFrame(m: byte, d: seq<byte>, st: State, o: Opts)
    requires st.Valid() && 0xC0 <= m <= 0xC2
    requires |d| < 8 || d[2] != 8 || (d[3] == 0 && d[4] == 0) || (d[5] == 0 && d[6] == 0) || d[7] == 0 || d[7] > 3
          || |d| < 8 + 3 * d[7]
          || exists i :: 0 <= i < d[7] && !Factored(d[9 + 3 * i])
    ensures Run([0xFF, m] + d, st, o) == Fail
  {
    hide Run, Comps, SizeOk;
    RunMarker(m, d, st, o);
    if |d| >= 8 && 1 <= d[7] <= 3 {
      OtherComps(d[8..], d[7]);
    }
  }

  /** Both sampling factors are from 1 to 4. */
  predicate Factored(sf: byte) { 1 <= sf / 16 <= 4 && 1 <= sf % 16 <= 4 }

  lemma {:induction false} OtherComps(d: seq<byte>, n: nat)
    requires n <= 3
    ensures |d| < 3 * n ==> Comps(d, n) == None
    ensures |d| >= 3 * n && (exists i :: 0 <= i < n && !Factored(d[3 * i + 1])) ==> Comps(d, n) == None
    decreases n
  {
    if n > 0 && |d| >= 3 {
      OtherComps(d[3..], n - 1);
      if |d| >= 3 * n && Factored(d[1]) {
        forall i | 0 <= i < n && !Factored(d[3 * i + 1])
          ensures 0 <= i - 1 < n - 1 && !Factored(d[3..][3 * (i - 1) + 1])
        {
        }
      }
    }
  }
}
