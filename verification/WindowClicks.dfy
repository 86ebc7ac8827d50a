/** Whether a click goes to the window that is seen at its point. */
module WindowClicks {
  import opened Bits
  import opened Rects
  import opened Windows
  import opened WindowLayers

  type Chrome = (int, int, nat) -> nat

  /** The windows of a table as they are drawn at rest, in the order they are painted. */
  function DrawnIn(t: WinTable, d: Monitor, order: seq<nat>, chromes: nat -> Chrome, contents: nat -> Content)
    : (vs: seq<Drawn>)
    requires |t.wins| == MAX_WIN && forall p :: 0 <= p < |order| ==> order[p] < MAX_WIN
    ensures |vs| == |order|
    ensures forall p :: 0 <= p < |order| ==>
              vs[p] == DrawnAt(t.wins[order[p]], d, chromes(order[p]), contents(order[p]))
  {
    seq(|order|, p requires 0 <= p < |order| => DrawnAt(t.wins[order[p]], d, chromes(order[p]), contents(order[p])))
  }

  function DrawnAt(w: Win, d: Monitor, chrome: Chrome, content: Content): Drawn {
    Drawn(w, FrameRect(w, d), chrome, content)
  }

  function Scenery(t: WinTable, ws: int, d: Monitor, chromes: nat -> Chrome, contents: nat -> Content)
    : seq<Compositor.Layer>
    requires |t.wins| == MAX_WIN
  {
    LayersOf(DrawnIn(t, d, PaintOrder(t, ws, 0), chromes, contents), d)
  }

  /** Title bar, border and shadow of every window stay in the rectangle it is skipped by. */
  ghost predicate AllFramed(t: WinTable, d: Monitor, chromes: nat -> Chrome)
    requires |t.wins| == MAX_WIN
  {
    forall k, x, y, c :: 0 <= k < MAX_WIN && !DrawRect(FrameRect(t.wins[k], d)).Has(x, y) ==> chromes(k)(x, y, c) == c
  }

  /** The window draws something at the point. */
  predicate Draws(w: Win, d: Monitor, x: int, y: int) {
    var f := FrameRect(w, d);
    DrawRect(f).Has(x, y) || SurfaceRect(w, d, f).Has(x, y)
  }

  /** The surface of window `k` is what is seen at the point: no window above it draws there. */
  ghost predicate Seen(t: WinTable, ws: int, d: Monitor, x: int, y: int, k: nat)
    requires |t.wins| == MAX_WIN
  {
    && k < MAX_WIN && Visible(t.wins[k], ws) && SurfaceRect(t.wins[k], d, FrameRect(t.wins[k], d)).Has(x, y)
    && forall j :: 0 <= j < MAX_WIN && Visible(t.wins[j], ws) && t.wins[j].z > t.wins[k].z ==>
         !Draws(t.wins[j], d, x, y)
  }

  // ----- the pixel -----

  lemma {:induction false} Untouched(ls: seq<Compositor.Layer>, x: int, y: int, c: nat)
    requires forall q, c :: 0 <= q < |ls| ==> ls[q].paint(x, y, c) == c
    ensures Compositor.Paint(ls, x, y, c) == c
  {
    if ls != [] {
      Untouched(ls[1..], x, y, c);
    }
  }

  /** The last layer that draws at a point decides. */
  lemma {:induction false} LastDecides(ls: seq<Compositor.Layer>, p: nat, x: int, y: int, c: nat, v: nat)
    requires p < |ls| && (forall c :: ls[p].paint(x, y, c) == v)
    requires forall q, c :: p < q < |ls| ==> ls[q].paint(x, y, c) == c
    ensures Compositor.Paint(ls, x, y, c) == v
    decreases |ls|
  {
    var rest := ls[1..];
    if p == 0 {
      assert ls[0].paint(x, y, c) == v;
      assert forall q :: 0 <= q < |rest| ==> rest[q] == ls[q + 1];
      Untouched(rest, x, y, v);
    } else {
      assert rest[p - 1] == ls[p];
      assert forall q :: 0 <= q < |rest| ==> rest[q] == ls[q + 1];
      LastDecides(rest, p - 1, x, y, ls[0].paint(x, y, c), v);
    }
  }

  /** The pixel of a window that is seen at a point is the one of its surface. */
  lemma SeenPixel(t: WinTable, ws: int, d: Monitor, chromes: nat -> Chrome, contents: nat -> Content, x: int, y: int,
                  k: nat, c: nat)
    requires t.Valid() && AllFramed(t, d, chromes) && Seen(t, ws, d, x, y, k)
    ensures Compositor.Paint(Scenery(t, ws, d, chromes, contents), x, y, c) == contents(k)(x, y)
  {
    hide PaintOrder, FrameRect, DrawRect, SurfaceRect;
    var o := PaintOrder(t, ws, 0);
    var ls := Scenery(t, ws, d, chromes, contents);
    PaintHas(t, ws, 0, k);
    PaintSorted(t, ws, 0);
    var p :| 0 <= p < |o| && o[p] == k;
    forall q, c | p < q < |o|
      ensures ls[q].paint(x, y, c) == c
    {
      assert o[q] in o;
      PaintHas(t, ws, 0, o[q]);
      assert t.wins[o[p]].z < t.wins[o[q]].z;
      assert !Draws(t.wins[o[q]], d, x, y);
    }
    LastDecides(ls, p, x, y, c, contents(k)(x, y));
  }

  // ----- the click -----

  /** The two rows above the shadow of a window, where it is not drawn but takes clicks. */
  predicate Lip(w: Win, d: Monitor, x: int, y: int) {
    var f := FrameRect(w, d);
    f.x - 8 <= x < f.x + f.w + 8 && f.y - 8 <= y < f.y + f.h + 8 && y < f.y - 6
  }

  lemma HitOrDrawn(w: Win, d: Monitor, x: int, y: int)
    requires !Draws(w, d, x, y)
    ensures Hit(w, d, x, y) <==> Lip(w, d, x, y)
  {
    hide FrameRect;
  }

  /** A click on a window that is seen at a point goes to it exactly when the point is in its frame, or
      eight pixels around it, and in no lip of a window above. */
  lemma ClickIff(t: WinTable, ws: int, d: Monitor, x: int, y: int, k: nat)
    requires t.Valid() && Seen(t, ws, d, x, y, k)
    ensures IsTop(t, ws, d, x, y, Some(k)) <==> Hit(t.wins[k], d, x, y) && !LipAbove(t, ws, d, x, y, k)
  {
    hide Hit, Lip, FrameRect, SurfaceRect, DrawRect;
    forall j | 0 <= j < MAX_WIN && Visible(t.wins[j], ws) && t.wins[j].z > t.wins[k].z
      ensures Hit(t.wins[j], d, x, y) <==> Lip(t.wins[j], d, x, y)
    {
      HitOrDrawn(t.wins[j], d, x, y);
    }
    if LipAbove(t, ws, d, x, y, k) {
      var j :| 0 <= j < MAX_WIN && Visible(t.wins[j], ws) && t.wins[j].z > t.wins[k].z && Lip(t.wins[j], d, x, y);
      assert Candidate(t, ws, d, x, y, j);
    }
  }

  ghost predicate LipAbove(t: WinTable, ws: int, d: Monitor, x: int, y: int, k: nat)
    requires |t.wins| == MAX_WIN && k < MAX_WIN
  {
    exists j :: 0 <= j < MAX_WIN && Visible(t.wins[j], ws) && t.wins[j].z > t.wins[k].z && Lip(t.wins[j], d, x, y)
  }

  /** The surface of a window that is not drawn twice as large is inside its frame. */
  lemma UndoubledHit(w: Win, d: Monitor, x: int, y: int)
    requires var f := FrameRect(w, d); !Doubled(w, d, f) && SurfaceRect(w, d, f).Has(x, y)
    ensures Hit(w, d, x, y)
  {
    hide FrameRect;
    UsedFits(w, d, FrameRect(w, d));
  }

  /** So away from the doubled UI scale only lips take clicks from the window that is seen. */
  lemma UndoubledClickIff(t: WinTable, ws: int, d: Monitor, x: int, y: int, k: nat)
    requires t.Valid() && Seen(t, ws, d, x, y, k) && !Doubled(t.wins[k], d, FrameRect(t.wins[k], d))
    ensures IsTop(t, ws, d, x, y, Some(k)) <==> !LipAbove(t, ws, d, x, y, k)
  {
    hide Hit, FrameRect, SurfaceRect, DrawRect, IsTop, LipAbove;
    UndoubledHit(t.wins[k], d, x, y);
    ClickIff(t, ws, d, x, y, k);
  }

  // ----- clicks that go astray -----

  lemma OneScan(list: seq<SurfaceInfo>, ws: int)
    ensures Run(NoWindows(), [Scanned(Some(list), ws)]) == Scan(NoWindows(), Some(list), ws)
  {
    hide Scan;
    assert [Scanned(Some(list), ws)][1..] == [];
  }

  /** A 400 by 300 window at twice the UI scale is seen at (700, 500), and a click there goes to no window. */
  lemma ClickMisses()
    ensures var t := Run(NoWindows(), [Scanned(Some([SurfaceInfo(0, 1, 1, 100, 200, 400, 300)]), 0)]);
            Seen(t, 0, BIG, 700, 500, 0) && IsTop(t, 0, BIG, 700, 500, None)
  {
    hide Scan;
    var s := SurfaceInfo(0, 1, 1, 100, 200, 400, 300);
    OneScan([s], 0);
    ScanFirst(NoWindows(), s, 0);
    var w := Scan(NoWindows(), Some([s]), 0).wins[0];
    assert FrameRect(w, BIG) == Rect(100, 132, 400, 368);
  }

  /** A click on the window below, just above the frame of the one on top, goes to the one on top. */
  lemma ClickTaken()
    ensures var below, top := SurfaceInfo(0, 1, 1, 100, 100, 640, 480), SurfaceInfo(1, 2, 2, 300, 300, 200, 200);
            var t := Run(NoWindows(), [Scanned(Some([below, top]), 0)]);
            Seen(t, 0, Monitor(1280, 800, 1), 400, 258, 0) && IsTop(t, 0, Monitor(1280, 800, 1), 400, 258, Some(1))
  {
    hide Scan;
    var a, b := SurfaceInfo(0, 1, 1, 100, 100, 640, 480), SurfaceInfo(1, 2, 2, 300, 300, 200, 200);
    var d := Monitor(1280, 800, 1);
    OneScan([a, b], 0);
    ScanTwo(a, b, 0);
    var t := Scan(NoWindows(), Some([a, b]), 0);
    assert FrameRect(t.wins[0], d) == Rect(100, 66, 640, 514) && FrameRect(t.wins[1], d) == Rect(300, 266, 200, 234);
  }
}
