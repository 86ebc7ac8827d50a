/** The frame loop's repaint: composite each dirty rectangle under the clip, draw the cursor, present
    the dirty rectangles. */
module Compositor {
  import opened Bits
  import opened Rects
  import opened Damage
  import opened Blit

  // ----- scenes -----

  /** A drawing function maps the pixel below to the pixel drawn; `gate` is the rectangle it is skipped by. */
  datatype Layer = Layer(gate: Option<Rect>, paint: (int, int, nat) -> nat)

  /** Everything a frame shows: backdrop, layers bottom to top, and the cursor. */
  datatype Scene = Scene(backdrop: (int, int) -> nat, layers: seq<Layer>, cursor: (int, int, nat) -> nat) {
    /** The pixel a full repaint shows. */
    ghost function Shown(x: int, y: int): nat {
      cursor(x, y, Paint(layers, x, y, backdrop(x, y)))
    }
  }

  function Paint(layers: seq<Layer>, x: int, y: int, c: nat): nat {
    if layers == [] then c else Paint(layers[1..], x, y, layers[0].paint(x, y, c))
  }

  predicate Runs(l: Layer, r: Rect) { l.gate.None? || Collide(r, l.gate.value) }

  /** What compositing rectangle `r` paints: layers whose gate misses `r` are skipped. */
  function PaintIn(layers: seq<Layer>, r: Rect, x: int, y: int, c: nat): nat {
    if layers == [] then c
    else PaintIn(layers[1..], r, x, y, if Runs(layers[0], r) then layers[0].paint(x, y, c) else c)
  }

  /** A gated layer draws nothing outside its gate. */
  ghost predicate Confined(layers: seq<Layer>) {
    forall i, x, y, c :: 0 <= i < |layers| && layers[i].gate.Some? && !layers[i].gate.value.Has(x, y) ==>
      layers[i].paint(x, y, c) == c
  }

  /** Skipping by gates does not show. */
  lemma {:induction false} PaintInIs(layers: seq<Layer>, r: Rect, x: int, y: int, c: nat)
    requires Confined(layers) && r.Has(x, y)
    ensures PaintIn(layers, r, x, y, c) == Paint(layers, x, y, c)
  {
    if layers != [] {
      var l, rest := layers[0], layers[1..];
      assert forall i :: 0 <= i < |rest| ==> rest[i] == layers[i + 1];
      if Runs(l, r) {
        PaintInIs(rest, r, x, y, l.paint(x, y, c));
      } else {
        assert l == layers[0] && l.paint(x, y, c) == c;
        PaintInIs(rest, r, x, y, c);
      }
    }
  }

  /** What the pixel is repainted to by the rectangles of a list, in order: the last one over it decides. */
  function Redrawn(layers: seq<Layer>, list: seq<Rect>, x: int, y: int, base: nat): Option<nat> {
    if list == [] then None
    else
      var n := |list| - 1;
      if list[n].Has(x, y) then Some(PaintIn(layers, list[n], x, y, base)) else Redrawn(layers, list[..n], x, y, base)
  }

  /** A pixel that may have been repainted over what it was. */
  function Over(c: Option<nat>, was: nat): nat {
    if c.Some? then c.value else was
  }

  lemma RedrawnNext(layers: seq<Layer>, list: seq<Rect>, i: nat, x: int, y: int, base: nat)
    requires i < |list|
    ensures Redrawn(layers, list[..i + 1], x, y, base)
         == if list[i].Has(x, y) then Some(PaintIn(layers, list[i], x, y, base))
            else Redrawn(layers, list[..i], x, y, base)
  {
    assert list[..i + 1][..i] == list[..i];
  }

  lemma {:induction false} RedrawnCovers(layers: seq<Layer>, list: seq<Rect>, x: int, y: int, base: nat)
    ensures Redrawn(layers, list, x, y, base).Some? <==> Covers(list, x, y)
  {
    if list != [] {
      var n := |list| - 1;
      RedrawnCovers(layers, list[..n], x, y, base);
      CoversNext(list, n, x, y);
      assert list[..n + 1] == list;
    }
  }

  /** With confined layers it does not matter which rectangles cover a pixel. */
  lemma {:induction false} RedrawnIs(layers: seq<Layer>, list: seq<Rect>, x: int, y: int, base: nat)
    requires Confined(layers)
    ensures Redrawn(layers, list, x, y, base) == if Covers(list, x, y) then Some(Paint(layers, x, y, base)) else None
  {
    hide Confined, Paint, PaintIn;
    if list != [] {
      var n := |list| - 1;
      RedrawnIs(layers, list[..n], x, y, base);
      CoversNext(list, n, x, y);
      assert list[..n + 1] == list;
      if list[n].Has(x, y) {
        PaintInIs(layers, list[n], x, y, base);
      }
    }
  }

  lemma PaintInNext(layers: seq<Layer>, i: nat, r: Rect, x: int, y: int, c: nat)
    requires i < |layers|
    ensures PaintIn(layers[i..], r, x, y, c)
         == PaintIn(layers[i + 1..], r, x, y, if Runs(layers[i], r) then layers[i].paint(x, y, c) else c)
  {
    assert layers[i..][1..] == layers[i + 1..];
  }

  lemma PaintInDone(r: Rect, x: int, y: int, c: nat)
    ensures PaintIn([], r, x, y, c) == c
  {
  }

  // ----- one frame -----

  class Display {
    const fb: Surface
    const backdrop: Surface
    const scanout: Surface
    const dirty: DirtyList

    constructor (fb: Surface, backdrop: Surface, scanout: Surface, dirty: DirtyList)
      requires fb.Valid() && backdrop.Valid() && scanout.Valid() && dirty.Valid()
      requires 0 < fb.w == backdrop.w == scanout.w == dirty.w && 0 < fb.h == backdrop.h == scanout.h == dirty.h
      requires fb.px != backdrop.px && fb.px != scanout.px && backdrop.px != scanout.px
      requires fb.w < U32_LIMIT && fb.h < U32_LIMIT && Sound(dirty.List(), Rect(0, 0, fb.w, fb.h))
      ensures Valid() && this.fb == fb && this.backdrop == backdrop && this.scanout == scanout && this.dirty == dirty
    {
      this.fb, this.backdrop, this.scanout, this.dirty := fb, backdrop, scanout, dirty;
    }

    ghost predicate Valid()
      reads this, dirty, dirty.dirty
    {
      && fb.Valid() && backdrop.Valid() && scanout.Valid() && dirty.Valid()
      && 0 < fb.w == backdrop.w == scanout.w == dirty.w && 0 < fb.h == backdrop.h == scanout.h == dirty.h
      && fb.px != backdrop.px && fb.px != scanout.px && backdrop.px != scanout.px
      && fb.w < U32_LIMIT && fb.h < U32_LIMIT
      && Sound(dirty.List(), Rect(0, 0, fb.w, fb.h))
    }

    predicate On(x: int, y: int) { 0 <= x < fb.w && 0 <= y < fb.h }

    /** One drawing call under the clip. */
    method Draw(paint: (int, int, nat) -> nat, clip: ClipState)
      requires fb.Valid()
      modifies fb.px
      ensures forall x, y :: 0 <= y < fb.px.Length0 && 0 <= x < fb.px.Length1 ==>
                fb.px[y, x] == if On(x, y) && clip.Allows(x, y) then paint(x, y, old(fb.px[y, x])) else old(fb.px[y, x])
    {
      forall x, y | 0 <= x < fb.w && 0 <= y < fb.h && clip.Allows(x, y) {
        fb.px[y, x] := paint(x, y, fb.px[y, x]);
      }
    }

    /** The backdrop under the clip. */
    method DrawBackdrop(r: Rect, clip: ClipState)
      requires Valid() && clip == SetClip(r)
      modifies fb.px
      ensures forall x, y :: 0 <= y < fb.px.Length0 && 0 <= x < fb.px.Length1 ==>
                fb.px[y, x] == if On(x, y) && r.Has(x, y) then backdrop.px[y, x] else old(fb.px[y, x])
    {
      BlitTo(fb, backdrop, Window(0, 0, 0, 0, fb.w, fb.h), clip);
    }

    method CompositeRect(r: Rect, layers: seq<Layer>)
      requires Valid()
      modifies fb.px
      ensures forall x, y :: 0 <= y < fb.px.Length0 && 0 <= x < fb.px.Length1 ==>
                fb.px[y, x] == if On(x, y) && r.Has(x, y) then PaintIn(layers, r, x, y, backdrop.px[y, x])
                               else old(fb.px[y, x])
    {
      hide PaintIn, Sound, Runs;
      var clip := SetClip(r);
      DrawBackdrop(r, clip);
      assert layers[0..] == layers;
      for i := 0 to |layers|
        invariant forall x, y :: On(x, y) && r.Has(x, y) ==>
                    PaintIn(layers, r, x, y, backdrop.px[y, x]) == PaintIn(layers[i..], r, x, y, fb.px[y, x])
        invariant forall x, y :: 0 <= y < fb.px.Length0 && 0 <= x < fb.px.Length1 && !(On(x, y) && r.Has(x, y)) ==>
                    fb.px[y, x] == old(fb.px[y, x])
      {
        forall x, y | On(x, y) && r.Has(x, y) {
          PaintInNext(layers, i, r, x, y, fb.px[y, x]);
        }
        if Runs(layers[i], r) {
          Draw(layers[i].paint, clip);
        }
      }
      forall x, y | On(x, y) && r.Has(x, y) {
        PaintInDone(r, x, y, fb.px[y, x]);
      }
      assert layers[|layers|..] == [];
    }

    /** Repaints the dirty rectangles, one after the other, overlapping or not. */
    method CompositeDirty(layers: seq<Layer>)
      requires Valid()
      modifies fb.px
      ensures forall x, y :: On(x, y) ==>
                fb.px[y, x] == Over(Redrawn(layers, dirty.List(), x, y, backdrop.px[y, x]), old(fb.px[y, x]))
    {
      hide PaintIn, Redrawn;
      ghost var list := dirty.List();
      forall x, y | On(x, y) {
        RedrawnCovers(layers, [], x, y, backdrop.px[y, x]);
      }
      for d := 0 to dirty.n
        invariant forall x, y :: On(x, y) ==>
                    fb.px[y, x] == Over(Redrawn(layers, list[..d], x, y, backdrop.px[y, x]), old(fb.px[y, x]))
      {
        CompositeRect(dirty.dirty[d], layers);
        forall x, y | On(x, y) {
          RedrawnNext(layers, list, d, x, y, backdrop.px[y, x]);
        }
      }
      assert list[..dirty.n] == list;
    }

    /** One frame: the scanout shows what was repainted, under the cursor, and is unchanged elsewhere. */
    method Frame(layers: seq<Layer>, cursor: (int, int, nat) -> nat)
      requires Valid()
      modifies fb.px, scanout.px, dirty
      ensures Valid() && dirty.List() == []
      ensures forall x, y :: On(x, y) ==>
                var c := Redrawn(layers, old(dirty.List()), x, y, backdrop.px[y, x]);
                scanout.px[y, x] == if c.Some? then cursor(x, y, c.value) else old(scanout.px[y, x])
    {
      hide Redrawn;
      ghost var list := dirty.List();
      CompositeDirty(layers);
      Draw(cursor, Off);
      UnsignedRects(dirty.List(), fb.w, fb.h);
      PresentRects(fb, scanout, dirty.List());
      forall x, y | On(x, y) {
        RedrawnCovers(layers, list, x, y, backdrop.px[y, x]);
      }
      dirty.n := 0;
    }
  }

  /** Rectangles on the screen keep their values when they are passed on as unsigned words. */
  lemma UnsignedRects(list: seq<Rect>, w: int, h: int)
    requires Sound(list, Rect(0, 0, w, h)) && 0 < w < U32_LIMIT && 0 < h < U32_LIMIT
    ensures forall i :: 0 <= i < |list| ==> Unsigned(list[i])
  {
    forall i | 0 <= i < |list|
      ensures Unsigned(list[i])
    {
      WithinCorners(list[i], Rect(0, 0, w, h));
    }
  }
}
