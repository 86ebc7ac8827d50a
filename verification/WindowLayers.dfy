/** Windows as layers of a scene: when the rectangle a window is skipped by is large enough for it. */
module WindowLayers {
  import opened Bits
  import opened Rects
  import opened Damage
  import opened Windows
  import Compositor
  import Repaint

  type Content = (int, int) -> nat

  /** A window drawn at `f` with title bar, border and shadow `chrome` under its surface. */
  datatype Drawn = Drawn(w: Win, f: Rect, chrome: (int, int, nat) -> nat, content: Content) {
    ghost predicate Framed() {
      forall x, y, c :: !DrawRect(f).Has(x, y) ==> chrome(x, y, c) == c
    }

    function Paint(d: Monitor, x: int, y: int, c: nat): nat {
      if SurfaceRect(w, d, f).Has(x, y) then content(x, y) else chrome(x, y, c)
    }

    function Layer(d: Monitor): Compositor.Layer {
      Compositor.Layer(Some(DrawRect(f)), (x, y, c) => Paint(d, x, y, c))
    }
  }

  /** Skipping the window cannot be seen in `r`. */
  ghost predicate Seamless(v: Drawn, d: Monitor, r: Rect) {
    forall x, y, c :: r.Has(x, y) ==>
      Compositor.PaintIn([v.Layer(d)], r, x, y, c) == Compositor.Paint([v.Layer(d)], x, y, c)
  }

  lemma OneLayer(v: Drawn, d: Monitor, r: Rect, x: int, y: int, c: nat)
    ensures Compositor.Paint([v.Layer(d)], x, y, c) == v.Paint(d, x, y, c)
    ensures Compositor.PaintIn([v.Layer(d)], r, x, y, c) == if Collide(r, DrawRect(v.f)) then v.Paint(d, x, y, c) else c
  {
    assert [v.Layer(d)][1..] == [];
    assert Compositor.Paint([], x, y, v.Paint(d, x, y, c)) == v.Paint(d, x, y, c);
    var c' := if Collide(r, DrawRect(v.f)) then v.Paint(d, x, y, c) else c;
    assert Compositor.PaintIn([], r, x, y, c') == c';
  }

  /** The dirty rectangle `r` shows the window, whatever its surface holds, exactly when `r` touches the
      rectangle the window is skipped by or misses the surface. */
  lemma SkipUnseenIff(v: Drawn, d: Monitor, r: Rect)
    requires v.Framed() && !r.Empty() && !SurfaceRect(v.w, d, v.f).Empty()
    ensures (forall content: Content :: Seamless(v.(content := content), d, r))
       <==> Collide(r, DrawRect(v.f)) || !Collide(r, SurfaceRect(v.w, d, v.f))
  {
    var a, b := DrawRect(v.f), SurfaceRect(v.w, d, v.f);
    CollideIff(r, a);
    CollideIff(r, b);
    if Collide(r, a) || !Collide(r, b) {
      forall content: Content, x, y, c | r.Has(x, y)
        ensures var u := v.(content := content).Layer(d);
                Compositor.PaintIn([u], r, x, y, c) == Compositor.Paint([u], x, y, c)
      {
        OneLayer(v.(content := content), d, r, x, y, c);
      }
    } else {
      var x, y :| r.Has(x, y) && b.Has(x, y);
      var white := v.(content := (x: int, y: int) => 1);
      OneLayer(white, d, r, x, y, 0);
      assert !Seamless(white, d, r);
    }
  }

  /** A window keeps to the rectangle it is skipped by, whatever it shows, exactly when its surface does. */
  lemma ConfinedIff(v: Drawn, d: Monitor)
    requires v.Framed()
    ensures (forall content: Content :: Compositor.Confined([v.(content := content).Layer(d)]))
       <==> Within(SurfaceRect(v.w, d, v.f), DrawRect(v.f))
  {
    var a, b := DrawRect(v.f), SurfaceRect(v.w, d, v.f);
    if Within(b, a) {
      forall content: Content
        ensures Compositor.Confined([v.(content := content).Layer(d)])
      {
      }
    } else {
      var x, y :| b.Has(x, y) && !a.Has(x, y);
      var white := v.(content := (x: int, y: int) => 1);
      var layers := [white.Layer(d)];
      assert layers[0].paint(x, y, 0) == 1;
      assert !Compositor.Confined(layers);
    }
  }

  /** The layers of windows, bottom to top. */
  function LayersOf(vs: seq<Drawn>, d: Monitor): (ls: seq<Compositor.Layer>)
    ensures |ls| == |vs| && forall i :: 0 <= i < |vs| ==> ls[i] == vs[i].Layer(d)
  {
    seq(|vs|, i requires 0 <= i < |vs| => vs[i].Layer(d))
  }

  /** Away from the doubled UI scale, and doubled if border and shadow leave room, windows are confined. */
  lemma WindowsConfined(vs: seq<Drawn>, d: Monitor)
    requires forall i :: 0 <= i < |vs| ==> vs[i].Framed()
    requires forall i :: 0 <= i < |vs| ==> var v := vs[i];
               || !Doubled(v.w, d, v.f)
               || (UsedW(v.w, v.f) * 2 <= v.f.w + 16 && UsedH(v.w, d, v.f) * 2 + d.TitleBar() <= v.f.h + 32)
    ensures Compositor.Confined(LayersOf(vs, d))
  {
    var ls := LayersOf(vs, d);
    forall i, x, y, c | 0 <= i < |ls| && ls[i].gate.Some? && !ls[i].gate.value.Has(x, y)
      ensures ls[i].paint(x, y, c) == c
    {
      var v := vs[i];
      assert v.Framed() && ls[i] == v.Layer(d);
      if SurfaceRect(v.w, d, v.f).Has(x, y) {
        SurfaceInRectIff(v.w, d, v.f);
      }
    }
  }

  // ----- a window that goes wrong -----

  const BIG := Monitor(1920, 1080, 2)

  /** A white 400 by 300 window on a screen at twice the UI scale. */
  function WhiteWindow(): Drawn {
    var w := Win(true, true, false, false, false, 0, 1, 1, 100, 200, 400, 300, 1, 1);
    Drawn(w, FrameRect(w, BIG), (x, y, c) => c, (x, y) => 1)
  }

  function WhiteScene(): Compositor.Scene {
    Compositor.Scene((x, y) => 0, [WhiteWindow().Layer(BIG)], (x, y, c) => c)
  }

  /** It is drawn 800 by 600, and a dirty rectangle in the part outside its own rectangle erases it there. */
  lemma WindowErased(desk: Repaint.Desk, rebuild: bool)
    requires Repaint.Exact(desk, WhiteScene(), Screen(1920, 1080))
    ensures var t := Repaint.Turn([AddOp(Rect(690, 490, 20, 20))], rebuild, WhiteScene());
            desk.out(700, 500) == 1 && Repaint.Present(desk, t, Screen(1920, 1080)).out(700, 500) == 0
  {
    var r, screen := Rect(690, 490, 20, 20), Screen(1920, 1080);
    assert screen.Has(700, 500);
    OneLayer(WhiteWindow(), BIG, r, 700, 500, 0);
    assert ApplyAll([], [AddOp(r)], screen) == [r] by {
      assert [AddOp(r)][1..] == [];
      assert Apply([], AddOp(r), screen) == [r];
    }
    assert Compositor.Redrawn(WhiteScene().layers, [r], 700, 500, 0) == Some(0);
  }
}
