/** The order in which the decoder visits the blocks of any frame. */
module JpegOrder {
  import opened Bits
  import opened JpegScan
  import opened JpegFile
  import opened JpegParts

  // ----- the place of a block -----

  /** The block lies in the MCUs of a frame of `mw` by `mh` of them. */
  predicate InGrid(comps: seq<Comp>, mw: nat, mh: nat, v: Visit) {
    v.c < |comps| && v.row < mh * comps[v.c].v && v.col < mw * comps[v.c].h
  }

  /** An MCU and a place in it: component, row, column. */
  datatype Spot = Spot(my: nat, mx: nat, c: nat, vy: nat, hx: nat) {
    /** MCU by MCU, and in each component by component and row by row. */
    predicate Before(p: Spot) {
      my < p.my || (my == p.my && (mx < p.mx || (mx == p.mx && (c < p.c || (c == p.c
      && (vy < p.vy || (vy == p.vy && hx < p.hx)))))))
    }
  }

  function SpotOf(comps: seq<Comp>, v: Visit): Spot
    requires CompsOk(comps) && v.c < |comps|
  {
    var c := comps[v.c];
    Spot(v.row / c.v, v.col / c.h, v.c, v.row % c.v, v.col % c.h)
  }

  function VisitOf(comps: seq<Comp>, p: Spot): Visit
    requires p.c < |comps|
  {
    Visit(p.c, p.my * comps[p.c].v + p.vy, p.mx * comps[p.c].h + p.hx)
  }

  lemma SpotVisit(comps: seq<Comp>, p: Spot)
    requires CompsOk(comps) && p.c < |comps| && p.vy < comps[p.c].v && p.hx < comps[p.c].h
    ensures SpotOf(comps, VisitOf(comps, p)) == p
  {
    GridIndex(p.my, p.vy, comps[p.c].v);
    GridIndex(p.mx, p.hx, comps[p.c].h);
  }

  lemma VisitSpot(comps: seq<Comp>, v: Visit)
    requires CompsOk(comps) && v.c < |comps|
    ensures VisitOf(comps, SpotOf(comps, v)) == v
  {
  }

  lemma SpotBounds(comps: seq<Comp>, mw: nat, mh: nat, v: Visit)
    requires CompsOk(comps) && InGrid(comps, mw, mh, v)
    ensures var p, c := SpotOf(comps, v), comps[v.c]; p.my < mh && p.mx < mw && p.vy < c.v && p.hx < c.h
  {
    GridBound(v.row, mh, comps[v.c].v);
    GridBound(v.col, mw, comps[v.c].h);
  }

  lemma VisitInGrid(comps: seq<Comp>, mw: nat, mh: nat, p: Spot)
    requires CompsOk(comps) && p.c < |comps| && p.vy < comps[p.c].v && p.hx < comps[p.c].h && p.my < mh && p.mx < mw
    ensures InGrid(comps, mw, mh, VisitOf(comps, p))
  {
    IndexBound(p.my, p.vy, mh, comps[p.c].v);
    IndexBound(p.mx, p.hx, mw, comps[p.c].h);
  }

  // ----- which blocks, in which order -----

  function From(comps: seq<Comp>, mw: nat, mh: nat, p: Spot): seq<Visit>
    requires p.my <= mh && p.mx <= mw && p.c <= |comps|
  {
    ScanOrder(comps, mw, mh, p.my, p.mx, p.c, p.vy, p.hx)
  }

  /** The place names a block. */
  predicate Real(comps: seq<Comp>, mw: nat, mh: nat, p: Spot) {
    p.my < mh && p.mx < mw && p.c < |comps| && p.vy < comps[p.c].v && p.hx < comps[p.c].h
  }

  /** Where the loops go on. */
  function Next(comps: seq<Comp>, mw: nat, mh: nat, p: Spot): (q: Spot)
    requires p.my < mh && p.mx <= mw && p.c <= |comps|
    ensures q.my <= mh && q.mx <= mw && q.c <= |comps|
  {
    if p.mx == mw then Spot(p.my + 1, 0, 0, 0, 0)
    else if p.c == |comps| then Spot(p.my, p.mx + 1, 0, 0, 0)
    else if p.vy >= comps[p.c].v then Spot(p.my, p.mx, p.c + 1, 0, 0)
    else if p.hx >= comps[p.c].h then Spot(p.my, p.mx, p.c, p.vy + 1, 0)
    else p.(hx := p.hx + 1)
  }

  lemma FromNext(comps: seq<Comp>, mw: nat, mh: nat, p: Spot)
    requires p.my < mh && p.mx <= mw && p.c <= |comps|
    ensures From(comps, mw, mh, p)
         == (if Real(comps, mw, mh, p) then [VisitOf(comps, p)] else []) + From(comps, mw, mh, Next(comps, mw, mh, p))
  {
    Unit(From(comps, mw, mh, Next(comps, mw, mh, p)));
  }

  lemma FromEnd(comps: seq<Comp>, mw: nat, mh: nat, p: Spot)
    requires p.my == mh && p.mx <= mw && p.c <= |comps|
    ensures From(comps, mw, mh, p) == []
  {
  }

  /** No block is passed over: one that is not before `p` is at `p` or not before the next place. */
  lemma NothingBetween(comps: seq<Comp>, mw: nat, mh: nat, p: Spot, q: Spot)
    requires p.my < mh && p.mx <= mw && p.c <= |comps| && Real(comps, mw, mh, q)
    ensures !q.Before(p) <==> q == p || !q.Before(Next(comps, mw, mh, p))
    ensures p.Before(Next(comps, mw, mh, p)) || !Real(comps, mw, mh, p)
  {
  }

  lemma Placed(comps: seq<Comp>, mw: nat, mh: nat, v: Visit)
    requires CompsOk(comps)
    ensures InGrid(comps, mw, mh, v) <==> v.c < |comps| && Real(comps, mw, mh, SpotOf(comps, v))
  {
    if InGrid(comps, mw, mh, v) {
      SpotBounds(comps, mw, mh, v);
    } else if v.c < |comps| && Real(comps, mw, mh, SpotOf(comps, v)) {
      VisitInGrid(comps, mw, mh, SpotOf(comps, v));
      VisitSpot(comps, v);
    }
  }

  /** The blocks still visited from a place on are those of the grid that are not before it. */
  lemma {:induction false} FromHas(comps: seq<Comp>, mw: nat, mh: nat, p: Spot, v: Visit)
    requires CompsOk(comps) && p.my <= mh && p.mx <= mw && p.c <= |comps|
    ensures v in From(comps, mw, mh, p) <==> InGrid(comps, mw, mh, v) && !SpotOf(comps, v).Before(p)
    decreases mh - p.my, mw - p.mx, |comps| - p.c,
              if p.c < |comps| && p.vy < comps[p.c].v then comps[p.c].v - p.vy else 0,
              if p.c < |comps| && p.hx < comps[p.c].h then comps[p.c].h - p.hx else 0
  {
    Placed(comps, mw, mh, v);
    hide From, InGrid, SpotOf, VisitOf;
    if p.my == mh {
      FromEnd(comps, mw, mh, p);
    } else {
      FromNext(comps, mw, mh, p);
      FromHas(comps, mw, mh, Next(comps, mw, mh, p), v);
      if InGrid(comps, mw, mh, v) {
        NothingBetween(comps, mw, mh, p, SpotOf(comps, v));
        VisitSpot(comps, v);
      }
      if Real(comps, mw, mh, p) {
        SpotVisit(comps, p);
        VisitInGrid(comps, mw, mh, p);
      }
    }
  }

  /** Each block comes before all that follow it. */
  ghost predicate Ordered(comps: seq<Comp>, vs: seq<Visit>)
    requires CompsOk(comps) && forall v :: v in vs ==> v.c < |comps|
  {
    vs == []
    || ((forall v :: v in vs[1..] ==> SpotOf(comps, vs[0]).Before(SpotOf(comps, v))) && Ordered(comps, vs[1..]))
  }

  lemma {:induction false} FromOrdered(comps: seq<Comp>, mw: nat, mh: nat, p: Spot)
    requires CompsOk(comps) && p.my <= mh && p.mx <= mw && p.c <= |comps|
    ensures Ordered(comps, From(comps, mw, mh, p))
    decreases mh - p.my, mw - p.mx, |comps| - p.c,
              if p.c < |comps| && p.vy < comps[p.c].v then comps[p.c].v - p.vy else 0,
              if p.c < |comps| && p.hx < comps[p.c].h then comps[p.c].h - p.hx else 0
  {
    if p.my < mh {
      var q := Next(comps, mw, mh, p);
      FromNext(comps, mw, mh, p);
      FromOrdered(comps, mw, mh, q);
      if Real(comps, mw, mh, p) {
        var rest := From(comps, mw, mh, q);
        assert ([VisitOf(comps, p)] + rest)[1..] == rest;
        hide From;
        SpotVisit(comps, p);
        forall v | v in rest
          ensures p.Before(SpotOf(comps, v))
        {
          FromHas(comps, mw, mh, q, v);
        }
      } else {
        assert [] + From(comps, mw, mh, q) == From(comps, mw, mh, q);
      }
    } else {
      FromEnd(comps, mw, mh, p);
    }
  }

  // ----- whole frames -----

  /** The MCUs are just enough to cover `size` samples. */
  lemma McusCover(size: nat, max: nat, n: nat)
    requires max >= 1
    ensures size <= 8 * max * n <==> Mcus(size, max) <= n
  {
    var d := 8 * max;
    var q := Mcus(size, max);
    assert max * 8 == d;
    var r := (size + d - 1) % d;
    assert size + d - 1 == d * q + r;
    if q <= n {
      MulMono(d, q, n);
    } else {
      MulMono(d, n + 1, q);
      assert d * (n + 1) == d * n + d;
    }
  }

  lemma {:induction false} MaxIs(comps: seq<Comp>)
    requires CompsOk(comps) && comps != []
    ensures exists i :: 0 <= i < |comps| && comps[i].h == MaxH(comps)
    ensures exists i :: 0 <= i < |comps| && comps[i].v == MaxV(comps)
  {
    var n := |comps| - 1;
    var front := comps[..n];
    if front != [] {
      MaxIs(front);
      var i :| 0 <= i < n && front[i].h == MaxH(front);
      var j :| 0 <= j < n && front[j].v == MaxV(front);
      assert comps[i] == front[i] && comps[j] == front[j];
    }
    assert comps[n].h == MaxH(comps) || MaxH(comps) == MaxH(front);
    assert comps[n].v == MaxV(comps) || MaxV(comps) == MaxV(front);
  }

  predicate InFrame(f: Frame, v: Visit) {
    InGrid(f.comps, Mcus(f.fw, MaxH(f.comps)), Mcus(f.fh, MaxV(f.comps)), v)
  }

  /** The decoder visits exactly the blocks of the frame's MCUs, MCU by MCU, component by component and row
      by row. */
  lemma FrameOrderIs(f: Frame)
    requires CompsOk(f.comps)
    ensures forall v: Visit :: v in FrameOrder(f) <==> InFrame(f, v)
    ensures Ordered(f.comps, FrameOrder(f))
  {
    hide InGrid, SpotOf, ScanOrder, Ordered;
    var mw, mh, start := Mcus(f.fw, MaxH(f.comps)), Mcus(f.fh, MaxV(f.comps)), Spot(0, 0, 0, 0, 0);
    assert FrameOrder(f) == From(f.comps, mw, mh, start);
    FromOrdered(f.comps, mw, mh, start);
    forall v: Visit
      ensures v in FrameOrder(f) <==> InFrame(f, v)
    {
      FromHas(f.comps, mw, mh, start, v);
      if InFrame(f, v) {
        InComps(f.comps, mw, mh, v);
        assert !SpotOf(f.comps, v).Before(start);
      }
    }
  }

  lemma InComps(comps: seq<Comp>, mw: nat, mh: nat, v: Visit)
    requires InGrid(comps, mw, mh, v)
    ensures v.c < |comps|
  {
  }

  lemma {:induction false} OrderedDistinct(comps: seq<Comp>, vs: seq<Visit>)
    requires CompsOk(comps) && (forall v :: v in vs ==> v.c < |comps|) && Ordered(comps, vs)
    ensures Distinct(vs)
    decreases |vs|
  {
    hide SpotOf;
    if vs != [] {
      OrderedDistinct(comps, vs[1..]);
      assert !SpotOf(comps, vs[0]).Before(SpotOf(comps, vs[0]));
    }
  }
}
