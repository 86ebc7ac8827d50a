/** Runs of frames: repainting and presenting only what is damaged shows the same as repainting
    everything every frame. */
module Repaint {
  import opened Rects
  import opened Damage
  import opened Compositor
  import opened Blit

  /** What happens up to a frame: damage calls, whether the backdrop is rebuilt, and the scene to show. */
  datatype Turn = Turn(ops: seq<DamageOp>, rebuild: bool, scene: Scene)

  type Shot = (int, int) -> nat

  /** What the frame loop carries over: the scanout and the backdrop buffer. */
  datatype Desk = Desk(out: Shot, base: Shot)

  /** The pixel after a frame with the dirty rectangles `list`. */
  function After(scene: Scene, list: seq<Rect>, x: int, y: int, base: nat, out: nat): nat {
    var c := Redrawn(scene.layers, list, x, y, base);
    if c.Some? then scene.cursor(x, y, c.value) else out
  }

  ghost function Present(desk: Desk, t: Turn, screen: Rect): Desk {
    var list := ApplyAll([], t.ops, screen);
    var base: Shot := if t.rebuild then t.scene.backdrop else desk.base;
    Desk((x: int, y: int) => After(t.scene, list, x, y, base(x, y), desk.out(x, y)), base)
  }

  ghost function PresentAll(desk: Desk, ts: seq<Turn>, screen: Rect): Desk
    decreases |ts|
  {
    if ts == [] then desk else PresentAll(Present(desk, ts[0], screen), ts[1..], screen)
  }

  // ----- the frame loop on the display -----

  ghost predicate Holds(d: Display, desk: Desk)
    requires d.fb.Valid() && d.backdrop.Valid() && d.scanout.Valid()
    requires d.fb.w == d.backdrop.w == d.scanout.w && d.fb.h == d.backdrop.h == d.scanout.h
    reads d, d.scanout.px, d.backdrop.px
  {
    forall x, y :: d.On(x, y) ==> d.scanout.px[y, x] == desk.out(x, y) && d.backdrop.px[y, x] == desk.base(x, y)
  }

  ghost function Row(s: Surface, y: nat): (g: seq<nat>)
    requires s.Valid() && s.w >= 0 && y < s.h
    reads s.px
    ensures |g| == s.w && forall x :: 0 <= x < s.w ==> g[x] == s.px[y, x]
  {
    seq(s.w, x requires 0 <= x < s.w reads s.px => s.px[y, x])
  }

  /** The pixels of a surface, row by row. */
  ghost function Grid(s: Surface): (g: seq<seq<nat>>)
    requires s.Valid() && s.w >= 0 && s.h >= 0
    reads s.px
    ensures |g| == s.h && forall y :: 0 <= y < s.h ==> g[y] == Row(s, y)
  {
    seq(s.h, y requires 0 <= y < s.h reads s.px => Row(s, y))
  }

  function Pixel(g: seq<seq<nat>>, x: int, y: int): nat {
    if 0 <= y < |g| && 0 <= x < |g[y]| then g[y][x] else 0
  }

  /** What the display holds, as a value. */
  ghost function Snapshot(d: Display): (desk: Desk)
    requires d.Valid()
    reads d, d.dirty, d.dirty.dirty, d.scanout.px, d.backdrop.px
    ensures Holds(d, desk)
  {
    var out, base := Grid(d.scanout), Grid(d.backdrop);
    Desk((x: int, y: int) => Pixel(out, x, y), (x: int, y: int) => Pixel(base, x, y))
  }

  lemma {:induction false} ApplyLast(list: seq<Rect>, ops: seq<DamageOp>, i: nat, screen: Rect)
    requires i < |ops|
    ensures ApplyAll(list, ops[..i + 1], screen) == Apply(ApplyAll(list, ops[..i], screen), ops[i], screen)
    decreases i
  {
    var a, b := ops[..i + 1], ops[..i];
    if i == 0 {
      assert a[1..] == [];
    } else {
      ApplyLast(Apply(list, ops[0], screen), ops[1..], i - 1, screen);
      assert a[1..] == ops[1..][..i] && b[1..] == ops[1..][..i - 1];
    }
  }

  /** The damage calls of a turn. */
  method DamageAll(dirty: DirtyList, ops: seq<DamageOp>)
    requires dirty.Valid() && dirty.List() == []
    modifies dirty, dirty.dirty
    ensures dirty.Valid() && dirty.List() == ApplyAll([], ops, Screen(dirty.w, dirty.h))
  {
    for i := 0 to |ops|
      invariant dirty.Valid() && dirty.List() == ApplyAll([], ops[..i], Screen(dirty.w, dirty.h))
    {
      ApplyLast([], ops, i, Screen(dirty.w, dirty.h));
      match ops[i] {
        case AddOp(r) => dirty.DamageAdd(r);
        case WholeOp => dirty.DamageWhole();
      }
    }
    assert ops[..|ops|] == ops;
  }

  method RebuildBackdrop(d: Display, base: Shot)
    requires d.Valid()
    modifies d.backdrop.px
    ensures forall x, y :: d.On(x, y) ==> d.backdrop.px[y, x] == base(x, y)
  {
    forall x, y | 0 <= x < d.fb.w && 0 <= y < d.fb.h {
      d.backdrop.px[y, x] := base(x, y);
    }
  }

  /** One pass of the frame loop. */
  method TakeTurn(d: Display, t: Turn, ghost desk: Desk)
    requires d.Valid() && d.dirty.List() == [] && Holds(d, desk)
    modifies d.fb.px, d.backdrop.px, d.scanout.px, d.dirty, d.dirty.dirty
    ensures d.Valid() && d.dirty.List() == [] && Holds(d, Present(desk, t, Screen(d.fb.w, d.fb.h)))
  {
    hide Redrawn, ApplyAll;
    RunCovers([], t.ops, Screen(d.fb.w, d.fb.h));
    DamageAll(d.dirty, t.ops);
    if t.rebuild {
      RebuildBackdrop(d, t.scene.backdrop);
    }
    d.Frame(t.scene.layers, t.scene.cursor);
  }

  /** The pass after pass of the frame loop. */
  method TakeTurns(d: Display, ts: seq<Turn>, ghost desk: Desk)
    requires d.Valid() && d.dirty.List() == [] && Holds(d, desk)
    modifies d.fb.px, d.backdrop.px, d.scanout.px, d.dirty, d.dirty.dirty
    ensures d.Valid() && d.dirty.List() == [] && Holds(d, PresentAll(desk, ts, Screen(d.fb.w, d.fb.h)))
  {
    hide Present;
    ghost var now := desk;
    assert ts[0..] == ts;
    for i := 0 to |ts|
      invariant d.Valid() && d.dirty.List() == [] && Holds(d, now)
      invariant PresentAll(desk, ts, Screen(d.fb.w, d.fb.h)) == PresentAll(now, ts[i..], Screen(d.fb.w, d.fb.h))
    {
      TakeTurn(d, ts[i], now);
      assert ts[i..][1..] == ts[i + 1..];
      now := Present(now, ts[i], Screen(d.fb.w, d.fb.h));
    }
  }

  // ----- exactness -----

  /** The scanout shows the scene, and the backdrop buffer holds the scene's. */
  ghost predicate Exact(desk: Desk, scene: Scene, screen: Rect) {
    forall x, y :: screen.Has(x, y) ==> desk.out(x, y) == scene.Shown(x, y) && desk.base(x, y) == scene.backdrop(x, y)
  }

  /** The backdrop is rebuilt unless the scene keeps it. */
  ghost predicate Rebuilt(last: Scene, t: Turn, screen: Rect) {
    t.rebuild || forall x, y :: screen.Has(x, y) ==> t.scene.backdrop(x, y) == last.backdrop(x, y)
  }

  /** A frame keeps the scanout exact exactly when every visible change lies in a dirty rectangle. */
  lemma FrameExactIff(desk: Desk, last: Scene, t: Turn, screen: Rect)
    requires Exact(desk, last, screen) && Rebuilt(last, t, screen) && Confined(t.scene.layers)
    ensures Exact(Present(desk, t, screen), t.scene, screen)
       <==> forall x, y :: screen.Has(x, y) && last.Shown(x, y) != t.scene.Shown(x, y) ==>
              Covers(ApplyAll([], t.ops, screen), x, y)
  {
    hide Confined, Redrawn, Paint;
    var list, now := ApplyAll([], t.ops, screen), Present(desk, t, screen);
    forall x, y | screen.Has(x, y)
      ensures now.base(x, y) == t.scene.backdrop(x, y)
      ensures now.out(x, y) == if Covers(list, x, y) then t.scene.Shown(x, y) else last.Shown(x, y)
    {
      assert desk.out(x, y) == last.Shown(x, y);
      RedrawnIs(t.scene.layers, list, x, y, now.base(x, y));
    }
  }

  /** Every pixel that looks different from the last scene was asked to be repainted. */
  ghost predicate Damaged(last: Scene, t: Turn, screen: Rect) {
    forall x, y :: screen.Has(x, y) && last.Shown(x, y) != t.scene.Shown(x, y) ==> Requested(t.ops, screen, x, y)
  }

  /** In every turn: gated layers stay in their gates, changes are damaged, a changed backdrop is rebuilt. */
  ghost predicate Tracked(last: Scene, ts: seq<Turn>, screen: Rect)
    decreases |ts|
  {
    ts == []
    || (&& Confined(ts[0].scene.layers) && Damaged(last, ts[0], screen) && Rebuilt(last, ts[0], screen)
        && Tracked(ts[0].scene, ts[1..], screen))
  }

  function LastScene(last: Scene, ts: seq<Turn>): Scene {
    if ts == [] then last else ts[|ts| - 1].scene
  }

  /** Over any such run, the scanout shows what full repaints would show. */
  lemma {:induction false} RunExact(desk: Desk, last: Scene, ts: seq<Turn>, screen: Rect)
    requires Exact(desk, last, screen) && Tracked(last, ts, screen) && !screen.Empty()
    ensures Exact(PresentAll(desk, ts, screen), LastScene(last, ts), screen)
    decreases |ts|
  {
    if ts != [] {
      RunCovers([], ts[0].ops, screen);
      FrameExactIff(desk, last, ts[0], screen);
      RunExact(Present(desk, ts[0], screen), ts[0].scene, ts[1..], screen);
    }
  }

  /** What the first pass does: all is damaged and the backdrop built. */
  ghost predicate Starts(first: Turn) {
    WholeOp in first.ops && first.rebuild && Confined(first.scene.layers)
  }

  /** From whatever scanout and backdrop held: the first frame shows all of its scene, and the run is exact. */
  lemma FirstFrame(desk: Desk, first: Turn, ts: seq<Turn>, screen: Rect)
    requires !screen.Empty() && Starts(first) && Tracked(first.scene, ts, screen)
    ensures Exact(PresentAll(desk, [first] + ts, screen), LastScene(first.scene, ts), screen)
  {
    hide Confined, Redrawn, Paint;
    WholeWins([], first.ops, screen);
    var now := Present(desk, first, screen);
    forall x, y | screen.Has(x, y)
      ensures now.out(x, y) == first.scene.Shown(x, y)
    {
      var list := ApplyAll([], first.ops, screen);
      assert list[0].Has(x, y);
      assert Covers(list, x, y);
      RedrawnIs(first.scene.layers, list, x, y, first.scene.backdrop(x, y));
      assert now.out(x, y) == After(first.scene, list, x, y, first.scene.backdrop(x, y), desk.out(x, y));
    }
    RunExact(now, first.scene, ts, screen);
    assert ([first] + ts)[1..] == ts;
  }

  /** The frame loop from its start, on any display: after every run the scanout shows the last scene. */
  method Desktop(d: Display, first: Turn, ts: seq<Turn>)
    requires d.Valid() && d.dirty.List() == []
    requires Starts(first) && Tracked(first.scene, ts, Screen(d.fb.w, d.fb.h))
    modifies d.fb.px, d.backdrop.px, d.scanout.px, d.dirty, d.dirty.dirty
    ensures d.Valid() && d.dirty.List() == []
    ensures forall x, y :: d.On(x, y) ==> d.scanout.px[y, x] == LastScene(first.scene, ts).Shown(x, y)
  {
    hide PresentAll, Tracked, Starts, Scene.Shown;
    ghost var desk := Snapshot(d);
    TakeTurns(d, [first] + ts, desk);
    FirstFrame(desk, first, ts, Screen(d.fb.w, d.fb.h));
  }
}
