/** The decoder: the byte stream, one method per segment, the five scan loops and the marker loop,
    which together compute what `JpegFile.DecodeFile` says, on every input. */
module JpegDecoder {
  import opened Bits
  import opened BitIO
  import opened Huffman
  import opened JpegTables
  import opened JpegBlock
  import opened JpegBlockIO
  import opened JpegScan
  import opened JpegQuant
  import opened JpegFile

  class ByteStream {
    const d: seq<byte>
    var pos: nat

    constructor (data: seq<byte>)
      ensures d == data && Valid() && Rest() == data
    {
      d := data;
      pos := 0;
    }

    ghost predicate Valid()
      reads this
    {
      pos <= |d|
    }

    function Rest(): seq<byte>
      requires Valid()
      reads this
    {
      d[pos..]
    }

    method U8() returns (v: int)
      requires Valid()
      modifies this
      ensures Valid()
      ensures if old(Rest()) == [] then v == -1 && Rest() == [] else v == old(Rest())[0] && Rest() == old(Rest())[1..]
    {
      if pos >= |d| {
        return -1;
      }
      v := d[pos];
      pos := pos + 1;
    }

    method U16() returns (v: int)
      requires Valid()
      modifies this
      ensures Valid()
      ensures if |old(Rest())| < 2 then v == -1 else v == Be16(old(Rest())) && Rest() == old(Rest())[2..]
    {
      var hi := U8();
      var lo := U8();
      if hi < 0 || lo < 0 {
        return -1;
      }
      v := 256 * hi + lo;
    }

    /** The next marker, or -1 at the end of the data. */
    method SkipMarker() returns (m: int)
      requires Valid()
      modifies this
      ensures Valid()
      ensures m < 0 <==> Skip(old(Rest())).None?
      ensures m >= 0 ==> Skip(old(Rest())) == Some((m, Rest()))
    {
      ghost var was := Rest();
      while true
        invariant Valid() && Skip(was) == Skip(Rest())
        decreases |d| - pos
      {
        var c := U8();
        if c < 0 {
          return -1;
        }
        if c != 0xFF {
          continue;
        }
        while true
          invariant Valid() && Skip(was) == SkipFill(Rest())
          invariant pos <= |d|
          decreases |d| - pos
        {
          ghost var s := Rest();
          c := U8();
          if c < 0 {
            return -1;
          }
          if c != 0xFF {
            assert SkipFill(s) == if c == 0 then Skip(Rest()) else Some((c, Rest()));
            break;
          }
        }
        if c == 0 {
          continue;
        }
        return c;
      }
    }
  }

  // ----- the scan as a running computation -----

  /** The planes after the remaining visits, or None when the data is bad. */
  function ScanPlanes(bits: seq<bool>, vs: seq<Visit>, comps: seq<Comp>, tabs: Tabs, ldc: seq<int>,
                      planes: map<Visit, seq<int>>, qt: QTabs): Option<map<Visit, seq<int>>>
    requires tabs.Valid() && CompsIn(comps, vs) && |ldc| == 3
  {
    var bs := DecodeBlocks(bits, vs, comps, tabs, ldc);
    if bs.None? then None else Some(Place(planes, vs, bs.value, comps, qt))
  }

  lemma ScanStep(bits: seq<bool>, vs: seq<Visit>, comps: seq<Comp>, tabs: Tabs, ldc: seq<int>,
                 planes: map<Visit, seq<int>>, qt: QTabs)
    requires tabs.Valid() && CompsIn(comps, vs) && |ldc| == 3 && vs != []
    ensures var v := vs[0];
            var t := TabIdx(comps[v.c]);
            var d := DecodeBlock(bits, tabs.dc[t], tabs.ac[t], ldc[v.c]);
            ScanPlanes(bits, vs, comps, tabs, ldc, planes, qt)
            == (if d.None? then None
                else ScanPlanes(d.value.1, vs[1..], comps, tabs, ldc[v.c := d.value.0[0]],
                                planes[v := Dequant(d.value.0, StepsOf(qt, comps[v.c]))], qt))
  {
    hide Dequant, DecodeBlock;
    var v := vs[0];
    var t := TabIdx(comps[v.c]);
    var d := DecodeBlock(bits, tabs.dc[t], tabs.ac[t], ldc[v.c]);
    if d.Some? {
      var r := DecodeBlocks(d.value.1, vs[1..], comps, tabs, ldc[v.c := d.value.0[0]]);
      if r.Some? {
        assert ([d.value.0] + r.value)[1..] == r.value;
      }
    }
  }

  lemma OrderHead(comps: seq<Comp>, mw: nat, mh: nat, my: nat, mx: nat, c: nat, vy: nat, hx: nat)
    requires my < mh && mx < mw && c < |comps| && vy < comps[c].v && hx < comps[c].h
    ensures var vs := ScanOrder(comps, mw, mh, my, mx, c, vy, hx);
            && vs != [] && vs[0] == Visit(c, my * comps[c].v + vy, mx * comps[c].h + hx)
            && vs[1..] == ScanOrder(comps, mw, mh, my, mx, c, vy, hx + 1)
  {
  }

  lemma RowEnd(comps: seq<Comp>, mw: nat, mh: nat, my: nat, mx: nat, c: nat, vy: nat)
    requires my < mh && mx < mw && c < |comps| && vy < comps[c].v
    ensures ScanOrder(comps, mw, mh, my, mx, c, vy, comps[c].h) == ScanOrder(comps, mw, mh, my, mx, c, vy + 1, 0)
  {
  }

  // ----- one step of each segment -----

  lemma DqtNext(d: seq<byte>, left: int, qt: QTabs)
    ensures left <= 0 || d == [] ==> DqtBody(d, left, qt) == Some((d, qt))
    ensures left > 0 && d != [] ==>
              var n := if d[0] / 16 != 0 then 128 else 64;
              DqtBody(d, left, qt) == if d[0] % 16 > 3 || |d| < 1 + n then None
                else DqtBody(d[1 + n..], left - 1 - n, SetQt(qt, d[0] % 16, QtEntry(d[1..1 + n])))
  {
    hide SetQt, QtEntry;
  }

  lemma DhtNext(d: seq<byte>, left: int, tabs: Tabs)
    requires tabs.Valid()
    ensures left <= 0 || d == [] ==> DhtBody(d, left, tabs) == Some((d, tabs))
    ensures left > 0 && d != [] && (d[0] % 16 > 1 || d[0] / 16 > 1 || |d| < 17) ==> DhtBody(d, left, tabs) == None
    ensures left > 0 && d != [] && d[0] % 16 <= 1 && d[0] / 16 <= 1 && |d| >= 17 ==>
              var n := Total(d[1..17], 1);
              DhtBody(d, left, tabs) == if n < 1 || n > MAX_HUFF || |d| < 17 + n then None
                else DhtBody(d[17 + n..], left - 17 - n,
                             SetTab(tabs, d[0] / 16, d[0] % 16, CanonTable(d[1..17], d[17..17 + n])))
  {
    hide SetTab, CanonTable, Total;
  }

  lemma SetSame(qt: QTabs, i: nat)
    requires i < 4
    ensures SetQt(qt, i, qt[i]) == qt
  {
  }

  lemma SetAgain(qt: QTabs, i: nat, q: seq<byte>, q': seq<byte>)
    requires i < 4 && |q| == |q'| == 64
    ensures SetQt(SetQt(qt, i, q), i, q') == SetQt(qt, i, q')
  {
  }

  lemma EntryOf(d: seq<byte>, q: seq<byte>)
    requires (|d| == 64 || |d| == 128) && |q| == 64
    requires forall j :: 0 <= j < 64 ==> q[j] == d[if |d| == 128 then 2 * j + 1 else j]
    ensures q == QtEntry(d)
  {
  }

  /** Components already read, in front of what is still to come. */
  function Joined(cs: seq<Comp>, more: Option<(seq<Comp>, seq<byte>)>): Option<(seq<Comp>, seq<byte>)> {
    if more.None? then None else Some((cs + more.value.0, more.value.1))
  }

  lemma CompsNext(cs: seq<Comp>, d: seq<byte>, n: nat)
    ensures |d| < 3 || !(1 <= d[1] / 16 <= 4 && 1 <= d[1] % 16 <= 4) ==> Joined(cs, Comps(d, n + 1)) == None
    ensures |d| >= 3 && 1 <= d[1] / 16 <= 4 && 1 <= d[1] % 16 <= 4 ==>
              Joined(cs, Comps(d, n + 1)) == Joined(cs + [Comp(d[0], d[1] / 16, d[1] % 16, d[2])], Comps(d[3..], n))
  {
    if |d| >= 3 && Comps(d[3..], n).Some? {
      Assoc(cs, [Comp(d[0], d[1] / 16, d[1] % 16, d[2])], Comps(d[3..], n).value.0);
    }
  }

  lemma NoComps()
    ensures MaxH([]) == MaxV([]) == 1
  {
  }

  lemma NoMoreComps(d: seq<byte>)
    ensures Comps(d, 0) == Some(([], d))
  {
  }

  lemma MaxNext(cs: seq<Comp>, c: Comp)
    ensures MaxH(cs + [c]) == if c.h > MaxH(cs) then c.h else MaxH(cs)
    ensures MaxV(cs + [c]) == if c.v > MaxV(cs) then c.v else MaxV(cs)
  {
    assert (cs + [c])[..|cs|] == cs;
  }

  /** The decoder's tables outlive a call; the rest is reset by it. */
  class Decoder {
    var qt: QTabs
    var tabs: Tabs
    var frame: Option<Frame>
    var hmax: nat
    var vmax: nat
    var planes: map<Visit, seq<int>>
    var decoded: bool

    constructor ()
      ensures Valid()
    {
      var none := Table([], [], []);
      qt := seq(4, i => seq(64, j => 0));
      tabs := Tabs([none, none], [none, none]);
      frame, planes, decoded := None, map[], false;
    }

    ghost predicate Valid()
      reads this
    {
      && tabs.Valid() && (decoded ==> frame.Some?)
      && (frame.Some? ==> frame.value.Valid() && hmax == MaxH(frame.value.comps) && vmax == MaxV(frame.value.comps))
    }

    ghost function State(): (s: State)
      requires Valid()
      reads this
      ensures s.Valid()
    {
      JpegFile.State(qt, tabs, frame, planes, decoded)
    }

    // ----- DQT -----

    /** One step of a quantiser table: one byte, or two of which the low one counts; -1 at the end. */
    method ReadStep(bs: ByteStream, wide: bool) returns (v: int)
      requires bs.Valid()
      modifies bs
      ensures bs.Valid()
      ensures var d, n := old(bs.Rest()), if wide then 2 else 1;
              && (v < 0 <==> |d| < n)
              && (v >= 0 ==> v % 256 == d[n - 1] && bs.Rest() == d[n..])
    {
      if wide {
        var hi := bs.U8();
        if hi < 0 {
          return -1;
        }
        var lo := bs.U8();
        v := if lo < 0 then -1 else 256 * hi + lo; // or-ing in -1 gives -1
      } else {
        v := bs.U8();
      }
    }

    /** The 64 steps of table `tq`, stored as they come. */
    method ReadSteps(bs: ByteStream, tq: nat, wide: bool) returns (ok: bool)
      requires bs.Valid() && tq < 4
      modifies bs, this`qt
      ensures bs.Valid()
      ensures var d, n := old(bs.Rest()), if wide then 128 else 64;
              && (ok <==> |d| >= n)
              && (ok ==> bs.Rest() == d[n..] && qt == SetQt(old(qt), tq, QtEntry(d[..n])))
    {
      hide SetQt, QtEntry;
      ghost var d, n := bs.Rest(), if wide then 128 else 64;
      ghost var was, at := qt, 0;
      ghost var q: seq<byte> := qt[tq];
      SetSame(qt, tq);
      for i := 0 to 64
        invariant bs.Valid() && at == (if wide then 2 * i else i) && at <= |d| && bs.Rest() == d[at..]
        invariant |q| == 64 && qt == SetQt(was, tq, q)
        invariant forall j :: 0 <= j < i ==> q[j] == d[if wide then 2 * j + 1 else j]
      {
        var v := ReadStep(bs, wide);
        if v < 0 {
          return false;
        }
        var b: byte := v % 256;
        ghost var q': seq<byte> := q[i := b];
        SetAgain(was, tq, q, q');
        qt := SetQt(qt, tq, qt[tq][i := b]);
        q := q';
        at := if wide then at + 2 else at + 1;
      }
      EntryOf(d[..n], q);
      ok := true;
    }

    method ReadQt(bs: ByteStream) returns (ok: bool)
      requires Valid() && bs.Valid() && bs.Rest() != []
      modifies bs, this`qt
      ensures bs.Valid()
      ensures var d := old(bs.Rest());
              var n := if d[0] / 16 != 0 then 128 else 64;
              && (ok <==> d[0] % 16 <= 3 && |d| >= 1 + n)
              && (ok ==> bs.Rest() == d[1 + n..] && qt == SetQt(old(qt), d[0] % 16, QtEntry(d[1..1 + n])))
    {
      hide SetQt, QtEntry;
      ghost var d := bs.Rest();
      var pq := bs.U8();
      var tq, prec := pq % 16, pq / 16;
      if tq > 3 {
        return false;
      }
      ok := ReadSteps(bs, tq, prec != 0);
      if ok {
        ghost var n := if prec != 0 then 128 else 64;
        assert d[1..][..n] == d[1..1 + n] && d[1..][n..] == d[1 + n..];
      }
    }

    method ReadDqt(bs: ByteStream) returns (ok: bool)
      requires Valid() && bs.Valid()
      modifies bs, this`qt
      ensures bs.Valid()
      ensures var l := SegLen(old(bs.Rest()));
              && (ok <==> l.Some? && DqtBody(l.value.1, l.value.0, old(qt)).Some?)
              && (ok ==> DqtBody(l.value.1, l.value.0, old(qt)) == Some((bs.Rest(), qt)))
    {
      hide QtEntry, SetQt, DqtBody;
      var l := bs.U16();
      if l < 2 {
        return false;
      }
      ghost var d := bs.Rest();
      var end := bs.pos + l - 2;
      while bs.pos < end && bs.pos < |bs.d|
        invariant bs.Valid() && DqtBody(d, l - 2, old(qt)) == DqtBody(bs.Rest(), end - bs.pos, qt)
      {
        DqtNext(bs.Rest(), end - bs.pos, qt);
        ok := ReadQt(bs);
        if !ok {
          return;
        }
      }
      DqtNext(bs.Rest(), end - bs.pos, qt);
      ok := true;
    }

    // ----- DHT -----

    method ReadCounts(bs: ByteStream) returns (counts: Option<Counts>, total: nat)
      requires bs.Valid()
      modifies bs
      ensures bs.Valid()
      ensures counts.Some? <==> |old(bs.Rest())| >= 16
      ensures counts.Some? ==> counts.value == old(bs.Rest())[..16] && total == Total(counts.value, 1)
                               && bs.Rest() == old(bs.Rest())[16..]
    {
      ghost var d := bs.Rest();
      var cs: seq<byte> := [];
      total := 0;
      for i := 0 to 16
        invariant bs.Valid() && |d| >= i && bs.Rest() == d[i..] && cs == d[..i]
        invariant |d| >= 16 ==> total + Total(d[..16], i + 1) == Total(d[..16], 1)
      {
        var c := bs.U8();
        if c < 0 {
          return None, 0;
        }
        cs := cs + [c];
        total := total + c;
      }
      counts := Some(cs);
    }

    method ReadSymbols(bs: ByteStream, total: nat) returns (syms: Option<seq<byte>>)
      requires bs.Valid() && total <= MAX_HUFF
      modifies bs
      ensures bs.Valid()
      ensures syms.Some? <==> |old(bs.Rest())| >= total
      ensures syms.Some? ==> |syms.value| == MAX_HUFF && syms.value[..total] == old(bs.Rest())[..total]
                             && bs.Rest() == old(bs.Rest())[total..]
    {
      ghost var d := bs.Rest();
      var r: seq<byte> := seq(MAX_HUFF, _ => 0);
      for i := 0 to total
        invariant bs.Valid() && |d| >= i && bs.Rest() == d[i..] && |r| == MAX_HUFF && r[..i] == d[..i]
      {
        var s := bs.U8();
        if s < 0 {
          return None;
        }
        r := r[i := s];
      }
      syms := Some(r);
    }

    method ReadTab(bs: ByteStream) returns (ok: bool)
      requires Valid() && bs.Valid() && bs.Rest() != []
      modifies bs, this`tabs
      ensures bs.Valid() && Valid()
      ensures var d := old(bs.Rest());
              && (ok <==> d[0] % 16 <= 1 && d[0] / 16 <= 1 && |d| >= 17
                          && 1 <= Total(d[1..17], 1) <= MAX_HUFF && |d| >= 17 + Total(d[1..17], 1))
              && (ok ==> var n := Total(d[1..17], 1);
                         && bs.Rest() == d[17 + n..]
                         && tabs == SetTab(old(tabs), d[0] / 16, d[0] % 16, CanonTable(d[1..17], d[17..17 + n])))
    {
      hide Total, LenOf, CodeOf, U16;
      ghost var d := bs.Rest();
      var tc := bs.U8();
      var th, tclass := tc % 16, tc / 16;
      if th > 1 || tclass > 1 {
        return false;
      }
      var counts, total := ReadCounts(bs);
      if counts.None? {
        return false;
      }
      assert counts.value == d[1..17];
      if total < 1 || total > MAX_HUFF {
        return false;
      }
      var syms := ReadSymbols(bs, total);
      if syms.None? {
        return false;
      }
      var t := BuildHuff(counts.value, syms.value);
      assert syms.value[..total] == d[17..17 + total];
      assert d[17..17 + total][..total] == d[17..17 + total];
      assert t.value == CanonTable(counts.value, d[17..17 + total]);
      tabs := if tclass == 0 then tabs.(dc := tabs.dc[th := t.value]) else tabs.(ac := tabs.ac[th := t.value]);
      assert bs.Rest() == d[17 + total..];
      ok := true;
    }

    method ReadDht(bs: ByteStream) returns (ok: bool)
      requires Valid() && bs.Valid()
      modifies bs, this`tabs
      ensures bs.Valid() && Valid()
      ensures var l := SegLen(old(bs.Rest()));
              && (ok <==> l.Some? && DhtBody(l.value.1, l.value.0, old(tabs)).Some?)
              && (ok ==> DhtBody(l.value.1, l.value.0, old(tabs)) == Some((bs.Rest(), tabs)))
    {
      hide CanonTable, Total, SetTab, DhtBody;
      var l := bs.U16();
      if l < 2 {
        return false;
      }
      ghost var d := bs.Rest();
      var end := bs.pos + l - 2;
      while bs.pos < end && bs.pos < |bs.d|
        invariant bs.Valid() && Valid() && DhtBody(d, l - 2, old(tabs)) == DhtBody(bs.Rest(), end - bs.pos, tabs)
      {
        DhtNext(bs.Rest(), end - bs.pos, tabs);
        ok := ReadTab(bs);
        if !ok {
          return;
        }
      }
      DhtNext(bs.Rest(), end - bs.pos, tabs);
      ok := true;
    }

    // ----- SOF -----

    method ReadComp(bs: ByteStream) returns (c: Option<Comp>)
      requires bs.Valid()
      modifies bs
      ensures bs.Valid()
      ensures var d := old(bs.Rest());
              && (c.Some? <==> |d| >= 3 && 1 <= d[1] / 16 <= 4 && 1 <= d[1] % 16 <= 4)
              && (c.Some? ==> c.value == Comp(d[0], d[1] / 16, d[1] % 16, d[2]) && bs.Rest() == d[3..])
    {
      var cid := bs.U8();
      var sf := bs.U8();
      var tq := bs.U8();
      if cid < 0 || sf < 0 || tq < 0 {
        return None;
      }
      var h, v := sf / 16, sf % 16;
      if h < 1 || h > 4 || v < 1 || v > 4 {
        return None;
      }
      c := Some(Comp(cid, h, v, tq));
    }

    /** The components, and the largest sampling factors on the way. */
    method ReadComps(bs: ByteStream, nf: nat) returns (cs: Option<seq<Comp>>)
      requires bs.Valid()
      modifies bs, this`hmax, this`vmax
      ensures bs.Valid()
      ensures cs.Some? <==> Comps(old(bs.Rest()), nf).Some?
      ensures cs.Some? ==> Comps(old(bs.Rest()), nf) == Some((cs.value, bs.Rest()))
                           && hmax == MaxH(cs.value) && vmax == MaxV(cs.value)
    {
      hide Comps, MaxH, MaxV;
      var r: seq<Comp> := [];
      hmax, vmax := 1, 1;
      ghost var all := Comps(bs.Rest(), nf);
      if all.Some? {
        Unit(all.value.0);
      }
      NoComps();
      for i := 0 to nf
        invariant bs.Valid() && hmax == MaxH(r) && vmax == MaxV(r) && all == Joined(r, Comps(bs.Rest(), nf - i))
      {
        CompsNext(r, bs.Rest(), nf - i - 1);
        var c := ReadComp(bs);
        if c.None? {
          return None;
        }
        MaxNext(r, c.value);
        r := r + [c.value];
        if c.value.h > hmax {
          hmax := c.value.h;
        }
        if c.value.v > vmax {
          vmax := c.value.v;
        }
      }
      NoMoreComps(bs.Rest());
      Unit(r);
      cs := Some(r);
    }

    method ReadDims(bs: ByteStream) returns (prec: int, fh: int, fw: int, nf: int)
      requires bs.Valid()
      modifies bs
      ensures bs.Valid()
      ensures var d := old(bs.Rest());
              && (prec == 8 && fh > 0 && fw > 0 && nf > 0 ==> |d| >= 6)
              && (|d| >= 6 ==> prec == d[0] && fh == Be16(d[1..]) && fw == Be16(d[3..]) && nf == d[5])
              && (|d| >= 6 ==> bs.Rest() == d[6..])
    {
      ghost var d := bs.Rest();
      prec := bs.U8();
      fh := bs.U16();
      fw := bs.U16();
      nf := bs.U8();
      if |d| >= 6 {
        assert d[1..][2..] == d[3..];
        assert d[3..][2..] == d[5..];
      }
    }

    method ReadSof(bs: ByteStream, o: Opts) returns (ok: bool)
      requires Valid() && bs.Valid()
      modifies bs, this`frame, this`hmax, this`vmax
      ensures bs.Valid() && tabs.Valid()
      ensures ok <==> Sof(old(bs.Rest()), o).Some?
      ensures ok ==> Valid() && frame.Some? && Sof(old(bs.Rest()), o) == Some((bs.Rest(), frame.value))
    {
      hide Comps, MaxH, MaxV;
      ghost var d := bs.Rest();
      var l := bs.U16();
      if l < 2 {
        return false;
      }
      var prec, fh, fw, nf := ReadDims(bs);
      if prec != 8 || fh <= 0 || fw <= 0 || nf < 1 || nf > 3 {
        return false;
      }
      assert d[2..][1..] == d[3..] && d[2..][3..] == d[5..] && d[2..][6..] == d[8..];
      if fw > JPEG_MAX_W || fh > JPEG_MAX_H {
        return false;
      }
      if o.maxW > 0 && fw > o.maxW {
        return false;
      }
      if o.maxH > 0 && fh > o.maxH {
        return false;
      }
      var cs := ReadComps(bs, nf);
      if cs.None? {
        return false;
      }
      frame := Some(Frame(fw, fh, cs.value));
      ok := true;
    }

    // ----- SOS -----

    /** Selectors and table identifiers, which the decoder does not look at. */
    method SkipSelectors(bs: ByteStream, n: nat)
      requires bs.Valid()
      modifies bs
      ensures bs.Valid()
      ensures bs.Rest() == if 2 * n <= |old(bs.Rest())| then old(bs.Rest())[2 * n..] else []
    {
      ghost var d := bs.Rest();
      for i := 0 to n
        invariant bs.Valid() && bs.Rest() == if 2 * i <= |d| then d[2 * i..] else []
      {
        var _ := bs.U8();
        var _ := bs.U8();
      }
    }

    /** The spectral selection and approximation of a baseline scan. */
    method ReadSpectral(bs: ByteStream) returns (ok: bool)
      requires bs.Valid()
      modifies bs
      ensures bs.Valid()
      ensures var d := old(bs.Rest());
              ok == (|d| >= 3 && d[0] == 0 && d[1] == 63 && d[2] == 0) && (ok ==> bs.Rest() == d[3..])
    {
      ghost var d := bs.Rest();
      var ss := bs.U8();
      if ss != 0 {
        return false;
      }
      var se := bs.U8();
      if se != 63 {
        return false;
      }
      assert |d| >= 2 && bs.Rest() == d[2..];
      var a := bs.U8();
      ok := a == 0;
    }

    method ReadSos(bs: ByteStream, ncomp: nat) returns (ok: bool)
      requires bs.Valid()
      modifies bs
      ensures bs.Valid()
      ensures ok <==> Sos(old(bs.Rest()), ncomp).Some?
      ensures ok ==> Sos(old(bs.Rest()), ncomp) == Some(bs.Rest())
    {
      ghost var d := bs.Rest();
      var l := bs.U16();
      if l < 2 {
        return false;
      }
      var ns := bs.U8();
      if ns != ncomp {
        return false;
      }
      SkipSelectors(bs, ns);
      ghost var n := 3 + 2 * ncomp;
      assert bs.Rest() == if n <= |d| then d[n..] else [];
      ghost var tail := bs.Rest();
      ok := ReadSpectral(bs);
      if |d| >= n + 3 {
        assert tail[0] == d[n] && tail[1] == d[n + 1] && tail[2] == d[n + 2] && tail[3..] == d[n + 3..];
      }
    }

    // ----- the scan -----

    /** With the rest of the data, the visits from here on complete the scan to `all`. */
    ghost predicate Owes(br: BitReader, ldc: seq<int>, my: nat, mx: nat, c: nat, vy: nat, hx: nat,
                         mw: nat, mh: nat, all: Option<map<Visit, seq<int>>>)
      reads this, br
    {
      && Valid() && frame.Some? && br.Valid() && |ldc| == 3
      && my <= mh && mx <= mw && c <= |frame.value.comps|
      && all == ScanPlanes(br.Rest(), ScanOrder(frame.value.comps, mw, mh, my, mx, c, vy, hx), frame.value.comps,
                           tabs, ldc, planes, qt)
    }

    /** Reads one block and stores it, dequantised, at its position. */
    method ReadVisit(br: BitReader, ldc: seq<int>, my: nat, mx: nat, c: nat, vy: nat, hx: nat,
                     ghost mw: nat, ghost mh: nat, ghost all: Option<map<Visit, seq<int>>>)
      returns (ok: bool, ldc': seq<int>)
      requires Owes(br, ldc, my, mx, c, vy, hx, mw, mh, all)
      requires my < mh && mx < mw && c < |frame.value.comps|
      requires vy < frame.value.comps[c].v && hx < frame.value.comps[c].h
      modifies br, this`planes
      ensures ok ==> Owes(br, ldc', my, mx, c, vy, hx + 1, mw, mh, all)
      ensures !ok ==> all.None?
    {
      hide ScanPlanes, ScanOrder, DecodeBlock, MaxH, MaxV, Dequant, Natural;
      var comps := frame.value.comps;
      var v := Visit(c, my * comps[c].v + vy, mx * comps[c].h + hx);
      ghost var vs := ScanOrder(comps, mw, mh, my, mx, c, vy, hx);
      OrderHead(comps, mw, mh, my, mx, c, vy, hx);
      ScanStep(br.Rest(), vs, comps, tabs, ldc, planes, qt);
      var t := if comps[c].id == 1 then 0 else 1;
      ghost var d := DecodeBlock(br.Rest(), tabs.dc[t], tabs.ac[t], ldc[c]);
      var coeff := ReadBlock(br, tabs.dc[t], tabs.ac[t], ldc[c]);
      if coeff.None? {
        return false, ldc;
      }
      var dq := Dequantise(coeff.value, StepsOf(qt, comps[c]), d.value.0);
      assert all == ScanPlanes(br.Rest(), vs[1..], comps, tabs, ldc[c := coeff.value[0]], planes[v := dq], qt);
      planes := planes[v := dq];
      ldc' := ldc[c := coeff.value[0]];
      ok := true;
    }

    /** Multiplies coefficients in natural order by a table in zigzag order. */
    method Dequantise(coeff: seq<int>, q: seq<byte>, ghost c: seq<int>) returns (dq: seq<int>)
      requires |c| == |q| == 64 && coeff == Natural(c)
      ensures dq == Dequant(c, q) && coeff[0] == c[0]
    {
      hide Natural, Dequant, Izz;
      dq := [];
      for i := 0 to 64
        invariant |dq| == i && forall j :: 0 <= j < i ==> dq[j] == coeff[j] * q[Izz(j)]
      {
        dq := dq + [coeff[i] * q[Izz(i)]];
      }
      FirstStays();
    }

    /** The blocks of one component in an MCU. */
    method ReadUnits(br: BitReader, ldc: seq<int>, my: nat, mx: nat, c: nat,
                     ghost mw: nat, ghost mh: nat, ghost all: Option<map<Visit, seq<int>>>)
      returns (ok: bool, ldc': seq<int>)
      requires Owes(br, ldc, my, mx, c, 0, 0, mw, mh, all) && my < mh && mx < mw && c < |frame.value.comps|
      modifies br, this`planes
      ensures ok ==> Owes(br, ldc', my, mx, c + 1, 0, 0, mw, mh, all)
      ensures !ok ==> all.None?
    {
      hide ScanPlanes, ScanOrder, MaxH, MaxV;
      ok, ldc' := true, ldc;
      for vy := 0 to frame.value.comps[c].v
        invariant ok && Owes(br, ldc', my, mx, c, vy, 0, mw, mh, all)
      {
        for hx := 0 to frame.value.comps[c].h
          invariant ok && Owes(br, ldc', my, mx, c, vy, hx, mw, mh, all)
        {
          ok, ldc' := ReadVisit(br, ldc', my, mx, c, vy, hx, mw, mh, all);
          if !ok {
            return;
          }
        }
        RowEnd(frame.value.comps, mw, mh, my, mx, c, vy);
      }
      LastRow(frame.value.comps, mw, mh, my, mx, c);
    }

    /** All MCUs, row by row; the result is kept in the planes. */
    method ReadScan(br: BitReader, mw: nat, mh: nat, ghost all: Option<map<Visit, seq<int>>>) returns (ok: bool)
      requires Owes(br, [0, 0, 0], 0, 0, 0, 0, 0, mw, mh, all)
      modifies br, this`planes
      ensures Valid()
      ensures ok <==> all.Some?
      ensures ok ==> all == Some(planes)
    {
      hide ScanPlanes, MaxH, MaxV;
      var ldc := [0, 0, 0];
      for my := 0 to mh
        invariant Owes(br, ldc, my, 0, 0, 0, 0, mw, mh, all)
      {
        for mx := 0 to mw
          invariant Owes(br, ldc, my, mx, 0, 0, 0, mw, mh, all)
        {
          for c := 0 to |frame.value.comps|
            invariant Owes(br, ldc, my, mx, c, 0, 0, mw, mh, all)
          {
            ok, ldc := ReadUnits(br, ldc, my, mx, c, mw, mh, all);
            if !ok {
              return;
            }
          }
        }
      }
      ScanDone(br.Rest(), frame.value.comps, tabs, ldc, planes, qt);
      ok := true;
    }

    /** The scan from the current position; the stream stays where the entropy-coded data begins. */
    method DecodeScan(bs: ByteStream) returns (ok: bool)
      requires Valid() && bs.Valid() && frame.Some?
      modifies this`planes, this`decoded
      ensures Valid()
      ensures ok <==> Scan(bs.Rest(), old(State())).Some?
      ensures ok ==> Scan(bs.Rest(), old(State())) == Some(State())
    {
      hide ScanOrder, MaxH, MaxV, DecodeBlocks, Place;
      var f := frame.value;
      planes := map[];
      var br := new BitReader(bs.d[bs.pos..]);
      var mw := (f.fw + hmax * 8 - 1) / (hmax * 8);
      var mh := (f.fh + vmax * 8 - 1) / (vmax * 8);
      ghost var all := ScanPlanes(br.Rest(), FrameOrder(f), f.comps, tabs, [0, 0, 0], map[], qt);
      ok := ReadScan(br, mw, mh, all);
      if ok {
        decoded := true;
      }
    }

    // ----- the marker loop -----

    method SkipSegment(bs: ByteStream) returns (ok: bool)
      requires bs.Valid()
      modifies bs
      ensures bs.Valid()
      ensures var l := SegLen(old(bs.Rest()));
              && (ok <==> l.Some? && l.value.0 <= |l.value.1|)
              && (ok ==> bs.Rest() == l.value.1[l.value.0..])
    {
      var l := bs.U16();
      if l < 2 {
        return false;
      }
      if bs.pos + (l - 2) > |bs.d| {
        return false;
      }
      bs.pos := bs.pos + (l - 2);
      ok := true;
    }

    /** One segment: a final result, or None to go on with the next marker. */
    method ReadSegment(bs: ByteStream, m: byte, o: Opts) returns (r: Option<Result>)
      requires Valid() && bs.Valid()
      modifies bs, this
      ensures bs.Valid() && tabs.Valid()
      ensures r.Some? ==> r.value == Segment(m, old(bs.Rest()), old(State()), o)
      ensures r.None? ==> Valid() && |bs.Rest()| <= |old(bs.Rest())|
                          && Run(bs.Rest(), State(), o) == Segment(m, old(bs.Rest()), old(State()), o)
    {
      hide Run, DqtBody, DhtBody, Sof, Sos, Scan, MaxH, MaxV;
      var ok := true;
      if m == 0xD9 {
        return Some(if decoded then Done(frame.value, planes) else Fail);
      } else if m == 0xDB {
        ok := ReadDqt(bs);
      } else if m == 0xC4 {
        ok := ReadDht(bs);
      } else if m == 0xC0 || m == 0xC1 || m == 0xC2 {
        ok := ReadSof(bs, o);
      } else if m == 0xDA {
        if frame.None? {
          return Some(Fail);
        }
        ok := ReadSos(bs, |frame.value.comps|);
        if ok && o.probe {
          return Some(Probed(frame.value.fw, frame.value.fh));
        }
        if ok {
          ok := DecodeScan(bs);
        }
      } else if 0xE0 <= m <= 0xEF || m == 0xFE {
        ok := SkipSegment(bs);
      } else if m == 0x01 || 0xD0 <= m <= 0xD7 {
      } else {
        ok := false;
      }
      r := if ok then None else Some(Fail);
    }

    method ReadSegments(bs: ByteStream, o: Opts) returns (r: Result)
      requires Valid() && bs.Valid()
      modifies bs, this
      ensures tabs.Valid()
      ensures r == Run(old(bs.Rest()), old(State()), o)
    {
      hide Run, Segment, Skip, MaxH, MaxV;
      while true
        invariant Valid() && bs.Valid() && Run(bs.Rest(), State(), o) == Run(old(bs.Rest()), old(State()), o)
        decreases |bs.Rest()|
      {
        RunStep(bs.Rest(), State(), o);
        var m := bs.SkipMarker();
        if m < 0 {
          return Fail;
        }
        var res := ReadSegment(bs, m, o);
        if res.Some? {
          return res.value;
        }
      }
    }

    method Reset()
      requires tabs.Valid()
      modifies this`frame, this`planes, this`decoded
      ensures Valid() && State() == JpegFile.State(qt, tabs, None, map[], false)
    {
      frame, planes, decoded := None, map[], false;
    }

    /** Decodes a file, or only its dimensions, with the tables left from earlier files. */
    method JpegDecode(data: seq<byte>, o: Opts) returns (r: Result)
      requires tabs.Valid()
      modifies this
      ensures tabs.Valid()
      ensures r == DecodeFile(data, old(qt), old(tabs), o)
    {
      hide Run, MaxH, MaxV, Skip, Segment;
      var bs := new ByteStream(data);
      Reset();
      var b0 := bs.U8();
      if b0 != 0xFF {
        return Fail;
      }
      var b1 := bs.U8();
      if b1 != 0xD8 {
        return Fail;
      }
      assert data[1..][1..] == data[2..];
      r := ReadSegments(bs, o);
    }
  }

  lemma RunStep(d: seq<byte>, st: State, o: Opts)
    requires st.Valid()
    ensures Skip(d).None? ==> Run(d, st, o) == Fail
    ensures Skip(d).Some? ==>
              |Skip(d).value.1| < |d| && Run(d, st, o) == Segment(Skip(d).value.0, Skip(d).value.1, st, o)
  {
    hide Segment, Skip;
  }

  lemma FirstStays()
    ensures Izz(0) == 0
  {
  }

  lemma ScanDone(bits: seq<bool>, comps: seq<Comp>, tabs: Tabs, ldc: seq<int>, planes: map<Visit, seq<int>>, qt: QTabs)
    requires tabs.Valid() && |comps| <= 3 && |ldc| == 3
    ensures ScanPlanes(bits, [], comps, tabs, ldc, planes, qt) == Some(planes)
  {
  }
}
