/** Pixel surfaces, the clipped block copy, and the copy of dirty rectangles to the scanout. */
module Blit {
  import opened Rects

  /** Rows of `px` are `pitch` pixels apart in memory from byte address `addr` on; `w` by `h` of them are visible. */
  class Surface {
    const px: array2<nat>
    const w: int
    const h: int
    const addr: nat

    constructor (px: array2<nat>, w: int, h: int, addr: nat)
      requires w <= px.Length1 && h <= px.Length0
      ensures this.px == px && this.w == w && this.h == h && this.addr == addr && Valid()
    {
      this.px, this.w, this.h, this.addr := px, w, h, addr;
    }

    ghost predicate Valid() { w <= px.Length1 && h <= px.Length0 }

    function Address(x: nat, y: nat): nat { addr + 4 * (y * px.Length1 + x) }
  }

  datatype ClipState = Off | On(x0: int, y0: int, x1: int, y1: int) {
    predicate Allows(x: int, y: int) { Off? || (x0 <= x < x1 && y0 <= y < y1) }
  }

  function SetClip(r: Rect): (c: ClipState)
    ensures forall x, y :: c.Allows(x, y) <==> r.Has(x, y)
  {
    On(r.x, r.y, r.x + r.w, r.y + r.h)
  }

  /** A window: destination corner, source corner, size. */
  datatype Window = Window(dx: int, dy: int, sx: int, sy: int, w: int, h: int) {
    predicate Has(x: int, y: int) { dx <= x < dx + w && dy <= y < dy + h }

    predicate FromSource(sw: int, sh: int, x: int, y: int) { 0 <= x - dx + sx < sw && 0 <= y - dy + sy < sh }

    predicate SameOffset(o: Window) { dx - sx == o.dx - o.sx && dy - sy == o.dy - o.sy }

    predicate Fits(dst: Surface, src: Surface) {
      && w > 0 && h > 0 && 0 <= dx && dx + w <= dst.w && 0 <= dy && dy + h <= dst.h
      && 0 <= sx && sx + w <= src.w && 0 <= sy && sy + h <= src.h
    }
  }

  method ToSource(a: Window, sw: int, sh: int) returns (go: bool, b: Window)
    ensures !go ==> forall x, y :: !(a.Has(x, y) && a.FromSource(sw, sh, x, y))
    ensures go ==> b.SameOffset(a) && b.w > 0 && b.h > 0
    ensures go ==> 0 <= b.sx && b.sx + b.w <= sw && 0 <= b.sy && b.sy + b.h <= sh
    ensures go ==> forall x, y :: b.Has(x, y) <==> a.Has(x, y) && a.FromSource(sw, sh, x, y)
  {
    go, b := false, a;
    if b.sx < 0 {
      b := b.(dx := b.dx - b.sx, w := b.w + b.sx, sx := 0);
    }
    if b.sy < 0 {
      b := b.(dy := b.dy - b.sy, h := b.h + b.sy, sy := 0);
    }
    if b.sx >= sw || b.sy >= sh {
      return;
    }
    if b.sx + b.w > sw {
      b := b.(w := sw - b.sx);
    }
    if b.sy + b.h > sh {
      b := b.(h := sh - b.sy);
    }
    go := b.w > 0 && b.h > 0;
  }

  method ToDestination(a: Window, dw: int, dh: int) returns (go: bool, b: Window)
    ensures !go ==> forall x, y :: !(a.Has(x, y) && 0 <= x < dw && 0 <= y < dh)
    ensures go ==> b.SameOffset(a) && b.w > 0 && b.h > 0
    ensures go ==> 0 <= b.dx && b.dx + b.w <= dw && 0 <= b.dy && b.dy + b.h <= dh
    ensures go ==> forall x, y :: b.Has(x, y) <==> a.Has(x, y) && 0 <= x < dw && 0 <= y < dh
  {
    go, b := false, a;
    if b.dx < 0 {
      b := b.(sx := b.sx - b.dx, w := b.w + b.dx, dx := 0);
    }
    if b.dy < 0 {
      b := b.(sy := b.sy - b.dy, h := b.h + b.dy, dy := 0);
    }
    if b.dx >= dw || b.dy >= dh {
      return;
    }
    if b.dx + b.w > dw {
      b := b.(w := dw - b.dx);
    }
    if b.dy + b.h > dh {
      b := b.(h := dh - b.dy);
    }
    go := b.w > 0 && b.h > 0;
  }

  method ToClip(a: Window, clip: ClipState) returns (go: bool, b: Window)
    ensures !go ==> forall x, y :: !(a.Has(x, y) && clip.Allows(x, y))
    ensures go ==> b.SameOffset(a) && b.w > 0 && b.h > 0
    ensures go ==> forall x, y :: b.Has(x, y) <==> a.Has(x, y) && clip.Allows(x, y)
  {
    b := a;
    if clip.On? {
      if b.dx < clip.x0 {
        var d := clip.x0 - b.dx;
        b := b.(dx := b.dx + d, sx := b.sx + d, w := b.w - d);
      }
      if b.dy < clip.y0 {
        var d := clip.y0 - b.dy;
        b := b.(dy := b.dy + d, sy := b.sy + d, h := b.h - d);
      }
      if b.dx + b.w > clip.x1 {
        b := b.(w := clip.x1 - b.dx);
      }
      if b.dy + b.h > clip.y1 {
        b := b.(h := clip.y1 - b.dy);
      }
    }
    go := b.w > 0 && b.h > 0;
  }

  /** The last checks of both bounds, which leave a window that fits alone. */
  method Recheck(a: Window, dst: Surface, src: Surface) returns (go: bool, b: Window)
    ensures go ==> b.Fits(dst, src)
    ensures a.Fits(dst, src) ==> go && b == a
  {
    go, b := false, a;
    if b.sx < 0 || b.sy < 0 || b.sx >= src.w || b.sy >= src.h {
      return;
    }
    if b.sx + b.w > src.w {
      b := b.(w := src.w - b.sx);
    }
    if b.sy + b.h > src.h {
      b := b.(h := src.h - b.sy);
    }
    if b.w <= 0 || b.h <= 0 {
      return;
    }
    if b.dx < 0 || b.dy < 0 || b.dx >= dst.w || b.dy >= dst.h {
      return;
    }
    if b.dx + b.w > dst.w {
      b := b.(w := dst.w - b.dx);
    }
    if b.dy + b.h > dst.h {
      b := b.(h := dst.h - b.dy);
    }
    go := b.w > 0 && b.h > 0;
  }

  /** A window within one that starts in the source stays in the source. */
  lemma Inside(a: Window, b: Window)
    requires b.SameOffset(a) && b.w > 0 && b.h > 0 && forall x, y :: b.Has(x, y) ==> a.Has(x, y)
    ensures a.dx <= b.dx && b.dx + b.w <= a.dx + a.w && a.dy <= b.dy && b.dy + b.h <= a.dy + a.h
  {
    assert b.Has(b.dx, b.dy) && b.Has(b.dx + b.w - 1, b.dy + b.h - 1);
  }

  /** The successive clips leave exactly the target pixels, at an unchanged offset. */
  method ClipWindow(dst: Surface, src: Surface, a: Window, clip: ClipState) returns (go: bool, win: Window)
    ensures !go ==> forall x, y :: !Target(dst, src, a, clip, x, y)
    ensures go ==> win.Fits(dst, src) && win.SameOffset(a)
    ensures go ==> forall x, y :: Target(dst, src, a, clip, x, y) <==> win.Has(x, y)
  {
    go, win := false, a;
    if a.w <= 0 || a.h <= 0 {
      return;
    }
    if src.w <= 0 || src.h <= 0 || dst.w <= 0 || dst.h <= 0 {
      return;
    }
    go, win := ToSource(a, src.w, src.h);
    if !go {
      return;
    }
    ghost var w1 := win;
    go, win := ToDestination(win, dst.w, dst.h);
    if !go {
      return;
    }
    ghost var w2 := win;
    go, win := ToClip(win, clip);
    if !go {
      return;
    }
    Inside(w2, win);
    Inside(w1, w2);
    go, win := Recheck(win, dst, src);
  }

  /** Pixel (x, y) is in the destination, in the window, comes from a source pixel and passes the clip. */
  predicate Target(dst: Surface, src: Surface, a: Window, clip: ClipState, x: int, y: int) {
    0 <= x < dst.w && 0 <= y < dst.h && a.Has(x, y) && a.FromSource(src.w, src.h, x, y) && clip.Allows(x, y)
  }

  // ----- copying -----

  /** Pixels `from` to `to` of the row are copied, all others are as they were. */
  twostate predicate Copied(dst: Surface, dx: nat, dy: nat, src: Surface, sx: nat, sy: nat, from: nat, to: nat)
    requires from <= to && dy < dst.px.Length0 && dx + to <= dst.px.Length1
    requires sy < src.px.Length0 && sx + to <= src.px.Length1
    reads dst.px, src.px
  {
    forall x, y :: 0 <= y < dst.px.Length0 && 0 <= x < dst.px.Length1 ==>
      dst.px[y, x] == if y == dy && dx + from <= x < dx + to then src.px[sy, x - dx + sx] else old(dst.px[y, x])
  }

  /** One load and store of `n` pixels, `i` pixels into the row. */
  method Store(dst: Surface, dx: nat, dy: nat, src: Surface, sx: nat, sy: nat, i: nat, n: nat)
    requires dst.px != src.px && dy < dst.px.Length0 && dx + i + n <= dst.px.Length1
    requires sy < src.px.Length0 && sx + i + n <= src.px.Length1
    modifies dst.px
    ensures Copied(dst, dx, dy, src, sx, sy, i, i + n)
  {
    forall x | dx + i <= x < dx + i + n {
      dst.px[dy, x] := src.px[sy, x - dx + sx];
    }
  }

  /** Four pixels at a time. */
  method CopyQuads(dst: Surface, dx: nat, dy: nat, src: Surface, sx: nat, sy: nat, w: nat) returns (i: nat)
    requires dst.px != src.px && dy < dst.px.Length0 && dx + w <= dst.px.Length1
    requires sy < src.px.Length0 && sx + w <= src.px.Length1
    modifies dst.px
    ensures i <= w && i % 2 == 0 && Copied(dst, dx, dy, src, sx, sy, 0, i)
  {
    i := 0;
    while i + 3 < w
      invariant 0 <= i <= w && i % 2 == 0 && Copied(dst, dx, dy, src, sx, sy, 0, i)
    {
      Store(dst, dx, dy, src, sx, sy, i, 4);
      i := i + 4;
    }
  }

  /** Two pixels at a time, from pixel `i0` on. */
  method CopyPairs(dst: Surface, dx: nat, dy: nat, src: Surface, sx: nat, sy: nat, w: nat, i0: nat) returns (i: nat)
    requires dst.px != src.px && dy < dst.px.Length0 && dx + w <= dst.px.Length1
    requires sy < src.px.Length0 && sx + w <= src.px.Length1
    requires i0 <= w && i0 % 2 == 0
    modifies dst.px
    ensures i0 <= i <= w && Copied(dst, dx, dy, src, sx, sy, i0, i)
  {
    i := i0;
    while i + 1 < w
      invariant i0 <= i <= w && i % 2 == 0 && Copied(dst, dx, dy, src, sx, sy, i0, i)
    {
      assert 2 * (i / 2) == i;
      Store(dst, dx, dy, src, sx, sy, 2 * (i / 2), 2);
      i := i + 2;
    }
  }

  /** One row, in the widest steps the alignment of both pointers allows. */
  method CopyRow(dst: Surface, dx: nat, dy: nat, src: Surface, sx: nat, sy: nat, w: nat)
    requires dst.px != src.px && dy < dst.px.Length0 && dx + w <= dst.px.Length1
    requires sy < src.px.Length0 && sx + w <= src.px.Length1
    modifies dst.px
    ensures Copied(dst, dx, dy, src, sx, sy, 0, w)
  {
    hide Surface.Address;
    var sp, dp := src.Address(sx, sy), dst.Address(dx, dy);
    var i := 0;
    if sp % 16 == 0 && dp % 16 == 0 {
      i := CopyQuads(dst, dx, dy, src, sx, sy, w);
    }
    if sp % 8 == 0 && dp % 8 == 0 {
      i := CopyPairs(dst, dx, dy, src, sx, sy, w, i);
    }
    while i < w
      invariant 0 <= i <= w && Copied(dst, dx, dy, src, sx, sy, 0, i)
    {
      Store(dst, dx, dy, src, sx, sy, i, 1);
      i := i + 1;
    }
  }

  /** Changes exactly the target pixels, each to its shifted source pixel. */
  method BlitTo(dst: Surface, src: Surface, a: Window, clip: ClipState)
    requires dst.Valid() && src.Valid() && dst.px != src.px
    modifies dst.px
    ensures forall x, y :: 0 <= y < dst.px.Length0 && 0 <= x < dst.px.Length1 ==>
              dst.px[y, x] == if Target(dst, src, a, clip, x, y) then src.px[y - a.dy + a.sy, x - a.dx + a.sx]
                              else old(dst.px[y, x])
  {
    var go, win := ClipWindow(dst, src, a, clip);
    if !go {
      return;
    }
    for j := 0 to win.h
      invariant forall x, y :: 0 <= y < dst.px.Length0 && 0 <= x < dst.px.Length1 ==>
                  dst.px[y, x] == if win.Has(x, y) && y < win.dy + j then src.px[y - a.dy + a.sy, x - a.dx + a.sx]
                                  else old(dst.px[y, x])
    {
      CopyRow(dst, win.dx, win.dy + j, src, win.sx, win.sy + j, win.w);
    }
  }

  // ----- presenting -----

  const U32_LIMIT := 0x1_0000_0000

  /** A rectangle of unsigned words whose far corner does not wrap around. */
  predicate Unsigned(r: Rect) {
    r.x >= 0 && r.y >= 0 && r.w >= 0 && r.h >= 0 && r.x + r.w < U32_LIMIT && r.y + r.h < U32_LIMIT
  }

  /** A row of the back buffer to the scanout, two pixels at a time when both are aligned. */
  method PresentRow(pixels: Surface, fb: Surface, x: nat, y: nat, n: nat)
    requires pixels.px != fb.px && y < fb.px.Length0 && x + n <= fb.px.Length1
    requires y < pixels.px.Length0 && x + n <= pixels.px.Length1
    modifies fb.px
    ensures Copied(fb, x, y, pixels, x, y, 0, n)
  {
    hide Surface.Address;
    var src, dst := pixels.Address(x, y), fb.Address(x, y);
    var k := 0;
    if src % 8 == 0 && dst % 8 == 0 {
      k := CopyPairs(fb, x, y, pixels, x, y, n, 0);
    }
    while k < n
      invariant 0 <= k <= n && Copied(fb, x, y, pixels, x, y, 0, k)
    {
      Store(fb, x, y, pixels, x, y, k, 1);
      k := k + 1;
    }
  }

  method PresentRect(pixels: Surface, fb: Surface, r: Rect)
    requires pixels.Valid() && fb.Valid() && pixels.px != fb.px && Unsigned(r)
    requires pixels.w == fb.w && pixels.h == fb.h && pixels.w >= 0 && pixels.h >= 0
    modifies fb.px
    ensures forall x, y :: 0 <= y < fb.px.Length0 && 0 <= x < fb.px.Length1 ==>
              fb.px[y, x] == if r.Has(x, y) && x < fb.w && y < fb.h then pixels.px[y, x] else old(fb.px[y, x])
  {
    var w, h := r.w, r.h;
    if r.x >= fb.w || r.y >= fb.h {
      return;
    }
    if w == 0 || h == 0 {
      return;
    }
    if r.x + w > fb.w {
      w := fb.w - r.x;
    }
    if r.y + h > fb.h {
      h := fb.h - r.y;
    }
    for yy := 0 to h
      invariant forall x, y :: 0 <= y < fb.px.Length0 && 0 <= x < fb.px.Length1 ==>
                  fb.px[y, x] == if r.Has(x, y) && x < fb.w && y < r.y + yy then pixels.px[y, x] else old(fb.px[y, x])
    {
      PresentRow(pixels, fb, r.x, r.y + yy, w);
    }
  }

  /** Makes the scanout equal to the back buffer in the given rectangles, and touches nothing else. */
  method PresentRects(pixels: Surface, fb: Surface, rects: seq<Rect>)
    requires pixels.Valid() && fb.Valid() && pixels.px != fb.px
    requires pixels.w == fb.w && pixels.h == fb.h && pixels.w >= 0 && pixels.h >= 0
    requires forall i :: 0 <= i < |rects| ==> Unsigned(rects[i])
    modifies fb.px
    ensures forall x, y :: 0 <= y < fb.px.Length0 && 0 <= x < fb.px.Length1 ==>
              fb.px[y, x] == if Covers(rects, x, y) && x < fb.w && y < fb.h then pixels.px[y, x] else old(fb.px[y, x])
  {
    for i := 0 to |rects|
      invariant forall x, y :: 0 <= y < fb.px.Length0 && 0 <= x < fb.px.Length1 ==>
                  fb.px[y, x] == if Covers(rects[..i], x, y) && x < fb.w && y < fb.h then pixels.px[y, x]
                                 else old(fb.px[y, x])
    {
      PresentRect(pixels, fb, rects[i]);
      forall x, y
        ensures Covers(rects[..i + 1], x, y) <==> Covers(rects[..i], x, y) || rects[i].Has(x, y)
      {
        CoversNext(rects, i, x, y);
      }
    }
    assert rects[..|rects|] == rects;
  }
}
