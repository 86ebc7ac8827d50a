/** Screen rectangles as the sets of their pixels. */
module Rects {
  datatype Rect = Rect(x: int, y: int, w: int, h: int) {
    predicate Has(px: int, py: int) { x <= px < x + w && y <= py < y + h }

    predicate Empty() { w <= 0 || h <= 0 }
  }

  function Clip(r: Rect, c: Rect): Rect {
    var x0 := if r.x > c.x then r.x else c.x;
    var y0 := if r.y > c.y then r.y else c.y;
    var x1 := if r.x + r.w < c.x + c.w then r.x + r.w else c.x + c.w;
    var y1 := if r.y + r.h < c.y + c.h then r.y + r.h else c.y + c.h;
    Rect(x0, y0, x1 - x0, y1 - y0)
  }

  predicate Collide(a: Rect, b: Rect) {
    a.x < b.x + b.w && b.x < a.x + a.w && a.y < b.y + b.h && b.y < a.y + a.h
  }

  function Merge(a: Rect, b: Rect): Rect {
    var x0 := if a.x < b.x then a.x else b.x;
    var y0 := if a.y < b.y then a.y else b.y;
    var x1 := if a.x + a.w > b.x + b.w then a.x + a.w else b.x + b.w;
    var y1 := if a.y + a.h > b.y + b.h then a.y + a.h else b.y + b.h;
    Rect(x0, y0, x1 - x0, y1 - y0)
  }

  ghost predicate Within(a: Rect, b: Rect) {
    forall x, y :: a.Has(x, y) ==> b.Has(x, y)
  }

  /** The pixel is in one of the rectangles. */
  predicate Covers(list: seq<Rect>, x: int, y: int) {
    exists i :: 0 <= i < |list| && list[i].Has(x, y)
  }

  lemma CoversNext(list: seq<Rect>, i: nat, x: int, y: int)
    requires i < |list|
    ensures Covers(list[..i + 1], x, y) <==> Covers(list[..i], x, y) || list[i].Has(x, y)
  {
    var a, b := list[..i], list[..i + 1];
    assert b[i] == list[i] && forall j :: 0 <= j < i ==> a[j] == b[j];
  }

  /** Clipping is intersection. */
  lemma ClipIs(r: Rect, c: Rect, x: int, y: int)
    ensures Clip(r, c).Has(x, y) <==> r.Has(x, y) && c.Has(x, y)
  {
  }

  /** Nonempty rectangles collide exactly when they share a pixel. */
  lemma CollideIff(a: Rect, b: Rect)
    requires !a.Empty() && !b.Empty()
    ensures Collide(a, b) <==> exists x, y :: a.Has(x, y) && b.Has(x, y)
  {
    if Collide(a, b) {
      var c := Clip(a, b);
      assert a.Has(c.x, c.y) && b.Has(c.x, c.y);
    }
  }

  /** The corners of a nonempty rectangle decide what it is within. */
  lemma WithinCorners(a: Rect, b: Rect)
    requires !a.Empty() && Within(a, b)
    ensures b.x <= a.x && b.y <= a.y && a.x + a.w <= b.x + b.w && a.y + a.h <= b.y + b.h
  {
    assert a.Has(a.x, a.y) && a.Has(a.x + a.w - 1, a.y + a.h - 1);
  }

  /** Merging gives the least rectangle around both. */
  lemma MergeIs(a: Rect, b: Rect, c: Rect)
    requires !a.Empty() && !b.Empty()
    ensures !Merge(a, b).Empty() && Within(a, Merge(a, b)) && Within(b, Merge(a, b))
    ensures Within(a, c) && Within(b, c) ==> Within(Merge(a, b), c)
  {
    if Within(a, c) && Within(b, c) {
      WithinCorners(a, c);
      WithinCorners(b, c);
    }
  }
}
