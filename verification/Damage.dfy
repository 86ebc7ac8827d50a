/** The compositor's list of dirty rectangles. */
module Damage {
  import opened Rects

  const MAX_DIRTY := 32

  function Screen(w: int, h: int): Rect { Rect(0, 0, w, h) }

  lemma ScreenHas(w: int, h: int, x: int, y: int)
    ensures Screen(w, h).Has(x, y) <==> 0 <= x < w && 0 <= y < h
  {
  }

  // ----- what one call does to the list -----

  /** Merges `r` into the first rectangle from `i` on that it collides with, or appends it, or gives up. */
  function Join(list: seq<Rect>, r: Rect, i: nat, screen: Rect): (l: seq<Rect>)
    requires i <= |list|
    decreases |list| - i
  {
    if i < |list| then
      if Collide(list[i], r) then list[i := Merge(list[i], r)] else Join(list, r, i + 1, screen)
    else if |list| < MAX_DIRTY then list + [r]
    else [screen]
  }

  function Add(list: seq<Rect>, r: Rect, screen: Rect): seq<Rect> {
    if r.Empty() || Clip(r, screen).Empty() then list else Join(list, Clip(r, screen), 0, screen)
  }

  class DirtyList {
    const w: int
    const h: int
    const dirty: array<Rect>
    var n: nat

    constructor (w: int, h: int)
      ensures Valid() && List() == [] && this.w == w && this.h == h && fresh(dirty)
    {
      this.w, this.h := w, h;
      dirty := new Rect[MAX_DIRTY](_ => Rect(0, 0, 0, 0));
      n := 0;
    }

    ghost predicate Valid()
      reads this
    {
      dirty.Length == MAX_DIRTY && n <= MAX_DIRTY
    }

    function List(): (l: seq<Rect>)
      requires Valid()
      reads this, dirty
      ensures |l| == n
    {
      dirty[..n]
    }

    method DamageWhole()
      requires Valid()
      modifies this, dirty
      ensures Valid() && List() == [Screen(w, h)]
    {
      dirty[0] := Rect(0, 0, w, h);
      n := 1;
    }

    method DamageAdd(r0: Rect)
      requires Valid()
      modifies this, dirty
      ensures Valid() && List() == Add(old(List()), r0, Screen(w, h))
    {
      if r0.Empty() {
        return;
      }
      var r := Clip(r0, Rect(0, 0, w, h));
      if r.Empty() {
        return;
      }
      for i := 0 to n
        invariant Valid() && List() == old(List()) && n == old(n)
        invariant Add(old(List()), r0, Screen(w, h)) == Join(List(), r, i, Screen(w, h))
      {
        if Collide(dirty[i], r) {
          ghost var was := List();
          dirty[i] := Merge(dirty[i], r);
          assert List() == was[i := Merge(was[i], r)];
          return;
        }
      }
      if n < MAX_DIRTY {
        dirty[n] := r;
        n := n + 1;
      } else {
        DamageWhole();
      }
    }
  }

  // ----- what holds over every run -----

  /** At most 32 rectangles, each nonempty and on the screen. */
  ghost predicate Sound(list: seq<Rect>, screen: Rect) {
    |list| <= MAX_DIRTY && forall i :: 0 <= i < |list| ==> !list[i].Empty() && Within(list[i], screen)
  }

  lemma {:induction false} JoinSound(list: seq<Rect>, r: Rect, i: nat, screen: Rect)
    requires i <= |list| && Sound(list, screen) && !screen.Empty() && !r.Empty() && Within(r, screen)
    ensures Sound(Join(list, r, i, screen), screen)
    decreases |list| - i
  {
    if i < |list| {
      if Collide(list[i], r) {
        MergeIs(list[i], r, screen);
      } else {
        JoinSound(list, r, i + 1, screen);
      }
    }
  }

  /** Nothing damaged is forgotten, and the new rectangle is damaged. */
  lemma {:induction false} JoinCovers(list: seq<Rect>, r: Rect, i: nat, screen: Rect, x: int, y: int)
    requires i <= |list| && Sound(list, screen) && !screen.Empty() && !r.Empty() && Within(r, screen)
    requires Covers(list, x, y) || r.Has(x, y)
    ensures Covers(Join(list, r, i, screen), x, y)
    decreases |list| - i
  {
    if i < |list| && !Collide(list[i], r) {
      JoinCovers(list, r, i + 1, screen, x, y);
    } else {
      var l := Join(list, r, i, screen);
      if Covers(list, x, y) {
        var j :| 0 <= j < |list| && list[j].Has(x, y);
        if i < |list| {
          MergeIs(list[i], r, screen);
          assert l[j].Has(x, y);
        } else if |list| < MAX_DIRTY {
          assert l[j].Has(x, y);
        } else {
          assert l[0].Has(x, y);
        }
      } else if i < |list| {
        MergeIs(list[i], r, screen);
        assert l[i].Has(x, y);
      } else {
        assert l[|l| - 1].Has(x, y);
      }
    }
  }

  /** The first rectangle from `i` on that `r` collides with becomes the least one around both, and all
      others stay. */
  lemma {:induction false} JoinMerges(list: seq<Rect>, r: Rect, i: nat, k: nat, screen: Rect)
    requires i <= k < |list| && Collide(list[k], r) && forall j :: i <= j < k ==> !Collide(list[j], r)
    ensures Join(list, r, i, screen) == list[k := Merge(list[k], r)]
    decreases k - i
  {
    if i < k {
      JoinMerges(list, r, i + 1, k, screen);
    }
  }

  /** `m` is the least rectangle around `a` and `b`. */
  ghost predicate Around(m: Rect, a: Rect, b: Rect) {
    Within(a, m) && Within(b, m) && forall s: Rect :: Within(a, s) && Within(b, s) ==> Within(m, s)
  }

  /** What damaging a rectangle does to the list: nothing when none of it is on the screen; else the first
      rectangle it collides with grows to the least one around both; else it is appended; else the whole
      screen is damaged, when there are 32 already. */
  lemma AddIs(list: seq<Rect>, r: Rect, screen: Rect)
    requires Sound(list, screen)
    ensures var c, l := Clip(r, screen), Add(list, r, screen);
            if r.Empty() || c.Empty() then l == list
            else if exists k: nat :: FirstHit(list, c, k) then
              exists k: nat :: FirstHit(list, c, k) && |l| == |list| && Around(l[k], list[k], c)
                && forall j :: 0 <= j < |list| && j != k ==> l[j] == list[j]
            else l == if |list| < 32 then list + [c] else [screen]
  {
    var c := Clip(r, screen);
    if !r.Empty() && !c.Empty() {
      if k: nat :| FirstHit(list, c, k) {
        JoinMerges(list, c, 0, k, screen);
        forall s: Rect
          ensures Within(list[k], Merge(list[k], c)) && Within(c, Merge(list[k], c))
          ensures Within(list[k], s) && Within(c, s) ==> Within(Merge(list[k], c), s)
        {
          MergeIs(list[k], c, s);
        }
        assert Around(Merge(list[k], c), list[k], c);
      } else {
        JoinMisses(list, c, 0, screen);
      }
    }
  }

  predicate FirstHit(list: seq<Rect>, r: Rect, k: nat) {
    k < |list| && Collide(list[k], r) && forall j :: 0 <= j < k ==> !Collide(list[j], r)
  }

  lemma {:induction false} NoHit(list: seq<Rect>, r: Rect, k: nat)
    requires k < |list| && Collide(list[k], r)
    ensures exists j: nat :: FirstHit(list, r, j)
  {
    if j :| 0 <= j < k && Collide(list[j], r) {
      NoHit(list, r, j);
    } else {
      assert FirstHit(list, r, k);
    }
  }

  lemma {:induction false} JoinMisses(list: seq<Rect>, r: Rect, i: nat, screen: Rect)
    requires i <= |list| && !exists k: nat :: FirstHit(list, r, k)
    ensures Join(list, r, i, screen) == if |list| < MAX_DIRTY then list + [r] else [screen]
    decreases |list| - i
  {
    if i < |list| {
      if Collide(list[i], r) {
        NoHit(list, r, i);
      } else {
        JoinMisses(list, r, i + 1, screen);
      }
    }
  }

  /** A rectangle that collides with none costs no other pixel while there is room. */
  lemma AddExact(list: seq<Rect>, r: Rect, screen: Rect, x: int, y: int)
    requires |list| < MAX_DIRTY && forall i :: 0 <= i < |list| ==> !Collide(list[i], Clip(r, screen))
    ensures Covers(Add(list, r, screen), x, y) <==> Covers(list, x, y) || (r.Has(x, y) && screen.Has(x, y))
  {
    var c := Clip(r, screen);
    if !r.Empty() && !c.Empty() {
      JoinAppends(list, c, 0, screen);
      var l := list + [c];
      assert l[|list|] == c && forall i :: 0 <= i < |list| ==> l[i] == list[i];
    }
  }

  lemma {:induction false} JoinAppends(list: seq<Rect>, r: Rect, i: nat, screen: Rect)
    requires i <= |list| < MAX_DIRTY && forall j :: i <= j < |list| ==> !Collide(list[j], r)
    ensures Join(list, r, i, screen) == list + [r]
    decreases |list| - i
  {
    if i < |list| {
      JoinAppends(list, r, i + 1, screen);
    }
  }

  /** Whole-screen damage absorbs everything. */
  lemma WholeAbsorbs(r: Rect, screen: Rect)
    requires !screen.Empty()
    ensures Add([screen], r, screen) == [screen]
  {
    var c := Clip(r, screen);
    if !r.Empty() && !c.Empty() {
      assert Collide(screen, c);
      assert Merge(screen, c) == screen;
    }
  }

  datatype DamageOp = AddOp(r: Rect) | WholeOp

  function Apply(list: seq<Rect>, op: DamageOp, screen: Rect): seq<Rect> {
    match op
    case AddOp(r) => Add(list, r, screen)
    case WholeOp => [screen]
  }

  function ApplyAll(list: seq<Rect>, ops: seq<DamageOp>, screen: Rect): seq<Rect>
    decreases |ops|
  {
    if ops == [] then list else ApplyAll(Apply(list, ops[0], screen), ops[1..], screen)
  }

  /** The pixel was asked for by one of the calls. */
  ghost predicate Requested(ops: seq<DamageOp>, screen: Rect, x: int, y: int) {
    exists i :: 0 <= i < |ops| && screen.Has(x, y) && (ops[i].AddOp? ==> ops[i].r.Has(x, y))
  }

  lemma ApplyKeeps(list: seq<Rect>, op: DamageOp, screen: Rect)
    requires Sound(list, screen) && !screen.Empty()
    ensures Sound(Apply(list, op, screen), screen)
    ensures forall x, y :: Covers(list, x, y) ==> Covers(Apply(list, op, screen), x, y)
    ensures forall x, y :: screen.Has(x, y) && (op.AddOp? ==> op.r.Has(x, y)) ==> Covers(Apply(list, op, screen), x, y)
  {
    var l := Apply(list, op, screen);
    if op.WholeOp? {
      forall x, y | screen.Has(x, y)
        ensures Covers(l, x, y)
      {
        assert l[0].Has(x, y);
      }
    } else {
      var r := Clip(op.r, screen);
      if !op.r.Empty() && !r.Empty() {
        JoinSound(list, r, 0, screen);
        forall x, y | Covers(list, x, y) || r.Has(x, y)
          ensures Covers(l, x, y)
        {
          JoinCovers(list, r, 0, screen, x, y);
        }
      }
    }
  }

  /** After any calls: the list is sound, keeps the damage it had, covers every requested pixel on the screen. */
  lemma {:induction false} RunCovers(list: seq<Rect>, ops: seq<DamageOp>, screen: Rect)
    requires Sound(list, screen) && !screen.Empty()
    ensures Sound(ApplyAll(list, ops, screen), screen)
    ensures forall x, y :: Covers(list, x, y) || Requested(ops, screen, x, y) ==>
              Covers(ApplyAll(list, ops, screen), x, y)
    decreases |ops|
  {
    if ops != [] {
      var l := Apply(list, ops[0], screen);
      ApplyKeeps(list, ops[0], screen);
      RunCovers(l, ops[1..], screen);
      forall x, y | Requested(ops, screen, x, y)
        ensures Covers(ApplyAll(list, ops, screen), x, y)
      {
        var i :| 0 <= i < |ops| && screen.Has(x, y) && (ops[i].AddOp? ==> ops[i].r.Has(x, y));
        if i > 0 {
          assert ops[1..][i - 1] == ops[i];
          assert Requested(ops[1..], screen, x, y);
        } else {
          assert Covers(l, x, y);
        }
      }
    }
  }

  /** Once the whole screen is dirty it stays the one rectangle of the list. */
  lemma {:induction false} RunAbsorbs(ops: seq<DamageOp>, screen: Rect)
    requires !screen.Empty()
    ensures ApplyAll([screen], ops, screen) == [screen]
    decreases |ops|
  {
    if ops != [] {
      if ops[0].AddOp? {
        WholeAbsorbs(ops[0].r, screen);
      }
      RunAbsorbs(ops[1..], screen);
    }
  }

  /** A run that damages the whole screen anywhere ends with just that. */
  lemma {:induction false} WholeWins(list: seq<Rect>, ops: seq<DamageOp>, screen: Rect)
    requires !screen.Empty() && WholeOp in ops
    ensures ApplyAll(list, ops, screen) == [screen]
    decreases |ops|
  {
    if ops[0].WholeOp? {
      RunAbsorbs(ops[1..], screen);
    } else {
      WholeWins(Apply(list, ops[0], screen), ops[1..], screen);
    }
  }
}
