/** The window table: z-order, hit test, and reconciliation with the surfaces a scan lists. */
module Windows {
  import opened Bits
  import opened Rects

  const MAX_WIN := 16

  /** Framebuffer size and the integer UI scale. */
  datatype Monitor = Monitor(w: int, h: int, scale: nat) {
    function Panel(): int { 40 * scale }

    function TitleBar(): int { 34 * scale }
  }

  datatype Win = Win(active: bool, seen: bool, hidden: bool, minimized: bool, maximized: bool, workspace: int,
                     id: nat, owner: nat, x: int, y: int, w: int, h: int, z: int, va: nat)

  /** A surface the kernel lists. */
  datatype SurfaceInfo = SurfaceInfo(id: nat, owner: nat, va: nat, x: int, y: int, w: int, h: int)

  datatype WinTable = WinTable(wins: seq<Win>, zTop: int, focus: int) {
    /** Active windows differ in id and in z, z runs from 1 to the top, and the focus is on none or an active one. */
    ghost predicate Valid() {
      && |wins| == MAX_WIN && zTop >= 0
      && (focus == -1 || (0 <= focus < MAX_WIN && wins[focus].active))
      && (forall i :: 0 <= i < MAX_WIN && wins[i].active ==> 1 <= wins[i].z <= zTop)
      && (forall i, j :: 0 <= i < j < MAX_WIN && wins[i].active && wins[j].active ==>
            wins[i].id != wins[j].id && wins[i].z != wins[j].z)
    }
  }

  // ----- geometry -----

  function ClientRect(w: Win, d: Monitor): Rect {
    if w.maximized then Rect(0, d.Panel() + d.TitleBar(), d.w, d.h - d.Panel() - d.TitleBar())
    else Rect(w.x, w.y, w.w, w.h)
  }

  /** Client area and title bar, which never slides under the panel. */
  function FrameRect(w: Win, d: Monitor): Rect {
    var c := ClientRect(w, d);
    Rect(c.x, if c.y - d.TitleBar() < d.Panel() then d.Panel() else c.y - d.TitleBar(), c.w, c.h + d.TitleBar())
  }

  /** The frame with eight pixels around it for grabbing. */
  predicate Hit(w: Win, d: Monitor, x: int, y: int) {
    var f := FrameRect(w, d);
    f.x - 8 <= x < f.x + f.w + 8 && f.y - 8 <= y < f.y + f.h + 8
  }

  /** A maximized window has all of the screen below the panel; any other keeps its size, has its title bar
      on top of it, and stays below the panel. */
  lemma FrameFills(w: Win, d: Monitor)
    ensures w.maximized ==> FrameRect(w, d) == Rect(0, 40 * d.scale, d.w, d.h - 40 * d.scale)
    ensures !w.maximized ==>
              var f, y := FrameRect(w, d), w.y - 34 * d.scale;
              && f.x == w.x && f.w == w.w && f.h == w.h + 34 * d.scale
              && f.y == if y < 40 * d.scale then 40 * d.scale else y
  {
  }

  // ----- where a window is drawn -----

  /** The rectangle a window drawn at `f` is damaged and skipped by: frame, border and shadow. */
  function DrawRect(f: Rect): Rect { Rect(f.x - 16, f.y - 6, f.w + 32, f.h + 38) }

  /** At twice the UI scale a surface that fits the screen is drawn twice as large. */
  predicate Doubled(w: Win, d: Monitor, f: Rect) {
    !w.maximized && d.scale == 2 && f.w * 2 <= d.w && (f.h - d.TitleBar()) * 2 <= d.h
  }

  /** The part of the drawn surface that is used. */
  function UsedW(w: Win, f: Rect): int { if f.w > w.w then w.w else f.w }

  function UsedH(w: Win, d: Monitor, f: Rect): int {
    if f.h - d.TitleBar() > w.h then w.h else f.h - d.TitleBar()
  }

  /** Where the surface of a window drawn at `f` lands, below the title bar. */
  function SurfaceRect(w: Win, d: Monitor, f: Rect): Rect {
    var y := f.y + d.TitleBar();
    if w.maximized then Rect(f.x, y, f.w, f.h - d.TitleBar())
    else if Doubled(w, d, f) then Rect(f.x, y, UsedW(w, f) * 2, UsedH(w, d, f) * 2)
    else Rect(f.x, y, UsedW(w, f), UsedH(w, d, f))
  }

  /** The surface stays inside the rectangle the window is skipped by exactly when it is not drawn twice as
      large, or is so small that the border and shadow make room for it. */
  lemma SurfaceInRectIff(w: Win, d: Monitor, f: Rect)
    requires !SurfaceRect(w, d, f).Empty()
    ensures Within(SurfaceRect(w, d, f), DrawRect(f))
       <==> !Doubled(w, d, f) || (UsedW(w, f) * 2 <= f.w + 16 && UsedH(w, d, f) * 2 + d.TitleBar() <= f.h + 32)
  {
    var a, b := SurfaceRect(w, d, f), DrawRect(f);
    UsedFits(w, d, f);
    if Within(a, b) {
      WithinCorners(a, b);
    }
  }

  lemma UsedFits(w: Win, d: Monitor, f: Rect)
    ensures UsedW(w, f) <= f.w && UsedH(w, d, f) <= f.h - d.TitleBar()
  {
  }

  /** A surface is drawn at its own size, to fill the frame of a maximized window, or twice as large when
      the screen has room for that and the UI scale is 2. */
  lemma SurfaceSize(w: Win, d: Monitor)
    requires 0 <= w.w && 0 <= w.h && 1 <= d.scale
    ensures var f := FrameRect(w, d);
            var s := SurfaceRect(w, d, f);
            && s.x == f.x && s.y == f.y + 34 * d.scale
            && (w.maximized ==> s.w == f.w && s.y + s.h == f.y + f.h)
            && (!w.maximized && d.scale == 2 && 2 * w.w <= d.w && 2 * w.h <= d.h ==> s.w == 2 * w.w && s.h == 2 * w.h)
            && (!w.maximized && !(d.scale == 2 && 2 * w.w <= d.w && 2 * w.h <= d.h) ==> s.w == w.w && s.h == w.h)
  {
  }

  predicate Visible(w: Win, ws: int) {
    w.active && !w.hidden && !w.minimized && (w.workspace == ws || w.workspace < 0)
  }

  /** An open window shows on its own workspace, or on all if it has none. */
  lemma VisibleIff(w: Win, ws: int)
    requires w.active && !w.hidden && !w.minimized && ws >= 0
    ensures w.workspace >= 0 ==> (Visible(w, ws) <==> w.workspace == ws)
    ensures w.workspace == -1 ==> Visible(w, ws)
    ensures !Visible(w.(active := false), ws) && !Visible(w.(hidden := true), ws) && !Visible(w.(minimized := true), ws)
  {
  }

  // ----- operations -----

  /** Gives slot `i` a z above all others and the focus. */
  function Raise(t: WinTable, i: nat): (r: WinTable)
    requires |t.wins| == MAX_WIN && i < MAX_WIN
    ensures |r.wins| == MAX_WIN
  {
    var z := t.zTop + 1;
    WinTable(seq(MAX_WIN, k requires 0 <= k < MAX_WIN =>
            if k == i then t.wins[k].(z := z)
            else if t.wins[k].active && t.wins[k].z >= z then t.wins[k].(z := t.wins[k].z - 1)
            else t.wins[k]), z, i)
  }

  /** The first slot from `i` on that is active with this id, or MAX_WIN. */
  function FindId(wins: seq<Win>, id: nat, i: nat): (r: nat)
    requires |wins| == MAX_WIN && i <= MAX_WIN
    ensures i <= r <= MAX_WIN
    ensures r < MAX_WIN ==> wins[r].active && wins[r].id == id
    ensures forall k :: i <= k < r ==> !(wins[k].active && wins[k].id == id)
    decreases MAX_WIN - i
  {
    if i == MAX_WIN || (wins[i].active && wins[i].id == id) then i else FindId(wins, id, i + 1)
  }

  /** The first free slot from `i` on, or MAX_WIN. */
  function FindFree(wins: seq<Win>, i: nat): (r: nat)
    requires |wins| == MAX_WIN && i <= MAX_WIN
    ensures i <= r <= MAX_WIN
    ensures r < MAX_WIN ==> !wins[r].active
    ensures forall k :: i <= k < r ==> wins[k].active
    decreases MAX_WIN - i
  {
    if i == MAX_WIN || !wins[i].active then i else FindFree(wins, i + 1)
  }

  /** A slot taken for a new surface; whether it is hidden stays as the slot's last window left it. */
  function Opened(w: Win, s: SurfaceInfo, z: int, ws: int): Win {
    w.(active := true, seen := true, minimized := false, maximized := false, workspace := ws, id := s.id,
       owner := s.owner, x := s.x, y := s.y, w := s.w, h := s.h, z := z, va := s.va)
  }

  function ScanOne(t: WinTable, s: SurfaceInfo, ws: int): (r: WinTable)
    requires |t.wins| == MAX_WIN
    ensures |r.wins| == MAX_WIN
  {
    var i := FindId(t.wins, s.id, 0);
    if i < MAX_WIN then t.(wins := t.wins[i := t.wins[i].(seen := true, w := s.w, h := s.h, va := s.va)])
    else
      var j := FindFree(t.wins, 0);
      if j == MAX_WIN then t
      else Raise(t.(wins := t.wins[j := Opened(t.wins[j], s, t.zTop + 1, ws)], zTop := t.zTop + 1), j)
  }

  function ScanEach(t: WinTable, list: seq<SurfaceInfo>, ws: int): (r: WinTable)
    requires |t.wins| == MAX_WIN
    ensures |r.wins| == MAX_WIN
    decreases |list|
  {
    if list == [] then t else ScanEach(ScanOne(t, list[0], ws), list[1..], ws)
  }

  function Unseen(t: WinTable): (r: WinTable)
    requires |t.wins| == MAX_WIN
    ensures |r.wins| == MAX_WIN
  {
    t.(wins := seq(MAX_WIN, k requires 0 <= k < MAX_WIN => t.wins[k].(seen := false)))
  }

  /** Forgets the windows whose surface is gone. */
  function DropUnseen(t: WinTable): (r: WinTable)
    requires |t.wins| == MAX_WIN
    ensures |r.wins| == MAX_WIN
  {
    WinTable(seq(MAX_WIN, k requires 0 <= k < MAX_WIN =>
            if t.wins[k].active && !t.wins[k].seen then t.wins[k].(active := false, va := 0) else t.wins[k]),
          t.zTop,
          if 0 <= t.focus < MAX_WIN && t.wins[t.focus].active && !t.wins[t.focus].seen then -1 else t.focus)
  }

  /** A scan that fails changes nothing. */
  function Scan(t: WinTable, list: Option<seq<SurfaceInfo>>, ws: int): (r: WinTable)
    requires |t.wins| == MAX_WIN
    ensures |r.wins| == MAX_WIN
  {
    if list.None? then t else DropUnseen(ScanEach(Unseen(t), list.value, ws))
  }

  /** The end of a close animation. */
  function Close(t: WinTable, i: nat): (r: WinTable)
    requires |t.wins| == MAX_WIN && i < MAX_WIN
    ensures |r.wins| == MAX_WIN
  {
    WinTable(t.wins[i := t.wins[i].(active := false)], t.zTop, if t.focus == i then -1 else t.focus)
  }

  predicate AnyHidden(t: WinTable)
    requires |t.wins| == MAX_WIN
  {
    exists i :: 0 <= i < MAX_WIN && t.wins[i].active && t.wins[i].hidden
  }

  /** Show Desktop: brings hidden windows back, or hides all; slots without a window keep their flag. */
  function ToggleDesktop(t: WinTable): (r: WinTable)
    requires |t.wins| == MAX_WIN
    ensures |r.wins| == MAX_WIN
  {
    t.(wins := seq(MAX_WIN, k requires 0 <= k < MAX_WIN =>
                     if t.wins[k].active then t.wins[k].(hidden := !AnyHidden(t)) else t.wins[k]))
  }

  // ----- the table stays valid over every run -----

  lemma RaiseValid(t: WinTable, i: nat)
    requires t.Valid() && i < MAX_WIN && t.wins[i].active
    ensures Raise(t, i).Valid() && Raise(t, i) == WinTable(t.wins[i := t.wins[i].(z := t.zTop + 1)], t.zTop + 1, i)
  {
    var r, w := Raise(t, i), t.wins[i := t.wins[i].(z := t.zTop + 1)];
    assert forall k :: 0 <= k < MAX_WIN ==> r.wins[k] == w[k];
  }

  lemma OpenedValid(t: WinTable, j: nat, s: SurfaceInfo, ws: int)
    requires t.Valid() && j < MAX_WIN && !t.wins[j].active && FindId(t.wins, s.id, 0) == MAX_WIN
    ensures t.(wins := t.wins[j := Opened(t.wins[j], s, t.zTop + 1, ws)], zTop := t.zTop + 1).Valid()
  {
    var r := t.(wins := t.wins[j := Opened(t.wins[j], s, t.zTop + 1, ws)], zTop := t.zTop + 1);
    forall a, b | 0 <= a < b < MAX_WIN && r.wins[a].active && r.wins[b].active
      ensures r.wins[a].id != r.wins[b].id && r.wins[a].z != r.wins[b].z
    {
      assert a != j ==> r.wins[a] == t.wins[a];
      assert b != j ==> r.wins[b] == t.wins[b];
    }
  }

  /** A surface that is not in the table takes the first free slot, on top of all others. */
  lemma ScanNew(t: WinTable, s: SurfaceInfo, ws: int)
    requires t.Valid() && FindId(t.wins, s.id, 0) == MAX_WIN && FindFree(t.wins, 0) < MAX_WIN
    ensures var j := FindFree(t.wins, 0);
            ScanOne(t, s, ws) == WinTable(t.wins[j := Opened(t.wins[j], s, t.zTop + 2, ws)], t.zTop + 2, j)
    ensures ScanOne(t, s, ws).Valid()
  {
    hide Raise, Opened, FindId;
    var j := FindFree(t.wins, 0);
    var w := Opened(t.wins[j], s, t.zTop + 1, ws);
    var u := t.(wins := t.wins[j := w], zTop := t.zTop + 1);
    OpenedValid(t, j, s, ws);
    OpenedRaised(t.wins[j], s, t.zTop + 1, ws);
    RaiseValid(u, j);
    assert u.wins[j := u.wins[j].(z := u.zTop + 1)] == t.wins[j := Opened(t.wins[j], s, t.zTop + 2, ws)] by {
      hide WinTable.Valid;
    }
  }

  lemma OpenedRaised(w: Win, s: SurfaceInfo, z: int, ws: int)
    ensures Opened(w, s, z, ws).active && Opened(w, s, z, ws).(z := z + 1) == Opened(w, s, z + 1, ws)
  {
  }

  /** A surface that is in the table, or finds no free slot. */
  lemma ScanKnown(t: WinTable, s: SurfaceInfo, ws: int)
    requires t.Valid() && (FindId(t.wins, s.id, 0) < MAX_WIN || FindFree(t.wins, 0) == MAX_WIN)
    ensures var i := FindId(t.wins, s.id, 0);
            ScanOne(t, s, ws) == if i == MAX_WIN then t
                                 else t.(wins := t.wins[i := t.wins[i].(seen := true, w := s.w, h := s.h, va := s.va)])
    ensures ScanOne(t, s, ws).Valid()
  {
    hide Raise, Opened;
    var i := FindId(t.wins, s.id, 0);
    if i < MAX_WIN {
      SeenValid(t, i, s);
    }
  }

  lemma ScanOneValid(t: WinTable, s: SurfaceInfo, ws: int)
    requires t.Valid()
    ensures ScanOne(t, s, ws).Valid()
  {
    hide ScanOne;
    if FindId(t.wins, s.id, 0) == MAX_WIN && FindFree(t.wins, 0) < MAX_WIN {
      ScanNew(t, s, ws);
    } else {
      ScanKnown(t, s, ws);
    }
  }

  lemma SeenValid(t: WinTable, i: nat, s: SurfaceInfo)
    requires t.Valid() && i < MAX_WIN
    ensures t.(wins := t.wins[i := t.wins[i].(seen := true, w := s.w, h := s.h, va := s.va)]).Valid()
  {
  }

  lemma {:induction false} ScanEachValid(t: WinTable, list: seq<SurfaceInfo>, ws: int)
    requires t.Valid()
    ensures ScanEach(t, list, ws).Valid()
    decreases |list|
  {
    if list != [] {
      ScanOneValid(t, list[0], ws);
      ScanEachValid(ScanOne(t, list[0], ws), list[1..], ws);
    }
  }

  lemma UnseenValid(t: WinTable)
    requires t.Valid()
    ensures Unseen(t).Valid()
  {
  }

  lemma DropValid(t: WinTable)
    requires t.Valid()
    ensures DropUnseen(t).Valid()
  {
  }

  lemma ScanValid(t: WinTable, list: Option<seq<SurfaceInfo>>, ws: int)
    requires t.Valid()
    ensures Scan(t, list, ws).Valid()
  {
    hide ScanEach, Unseen, DropUnseen;
    if list.Some? {
      UnseenValid(t);
      ScanEachValid(Unseen(t), list.value, ws);
      DropValid(ScanEach(Unseen(t), list.value, ws));
    }
  }

  lemma CloseValid(t: WinTable, i: nat)
    requires t.Valid() && i < MAX_WIN
    ensures Close(t, i).Valid()
  {
  }

  lemma ToggleValid(t: WinTable)
    requires t.Valid()
    ensures ToggleDesktop(t).Valid()
  {
    var r := ToggleDesktop(t);
    assert forall k :: 0 <= k < MAX_WIN ==>
        r.wins[k].active == t.wins[k].active && r.wins[k].z == t.wins[k].z && r.wins[k].id == t.wins[k].id;
  }

  datatype WinEvent =
    | Scanned(list: Option<seq<SurfaceInfo>>, ws: int)
    | Raised(i: nat)
    | Closed(i: nat)
    | DesktopToggled

  /** Raising a slot that holds no window, or one out of range, does not happen. */
  function Step(t: WinTable, e: WinEvent): (r: WinTable)
    requires |t.wins| == MAX_WIN
    ensures |r.wins| == MAX_WIN
  {
    match e
    case Scanned(list, ws) => Scan(t, list, ws)
    case Raised(i) => if i < MAX_WIN && t.wins[i].active then Raise(t, i) else t
    case Closed(i) => if i < MAX_WIN then Close(t, i) else t
    case DesktopToggled => ToggleDesktop(t)
  }

  function Run(t: WinTable, es: seq<WinEvent>): (r: WinTable)
    requires |t.wins| == MAX_WIN
    ensures |r.wins| == MAX_WIN
    decreases |es|
  {
    if es == [] then t else Run(Step(t, es[0]), es[1..])
  }

  lemma StepValid(t: WinTable, e: WinEvent)
    requires t.Valid()
    ensures Step(t, e).Valid()
  {
    match e
    case Scanned(list, ws) => ScanValid(t, list, ws);
    case Raised(i) =>
      if i < MAX_WIN && t.wins[i].active {
        RaiseValid(t, i);
      }
    case Closed(i) =>
      if i < MAX_WIN {
        CloseValid(t, i);
      }
    case DesktopToggled => ToggleValid(t);
  }

  lemma {:induction false} RunValid(t: WinTable, es: seq<WinEvent>)
    requires t.Valid()
    ensures Run(t, es).Valid()
    decreases |es|
  {
    if es != [] {
      StepValid(t, es[0]);
      RunValid(Step(t, es[0]), es[1..]);
    }
  }

  // ----- what a scan leaves -----

  /** The mapping the scan lists last for an id. */
  function Mapped(list: seq<SurfaceInfo>, id: nat): Option<nat> {
    if list == [] then None
    else
      var last := list[|list| - 1];
      if last.id == id then Some(last.va) else Mapped(list[..|list| - 1], id)
  }

  /** Every window seen so far has the mapping listed for its id. */
  ghost predicate SeenMapped(t: WinTable, list: seq<SurfaceInfo>)
    requires |t.wins| == MAX_WIN
  {
    forall i :: 0 <= i < MAX_WIN && t.wins[i].active && t.wins[i].seen ==>
      Mapped(list, t.wins[i].id) == Some(t.wins[i].va)
  }

  /** The window of a listed surface. */
  ghost predicate SeenId(t: WinTable, id: nat)
    requires |t.wins| == MAX_WIN
  {
    exists i :: 0 <= i < MAX_WIN && t.wins[i].active && t.wins[i].seen && t.wins[i].id == id
  }

  /** One more surface: the slot it went to, if any, is the only one that changed but for z. */
  lemma ScanOneSlots(t: WinTable, s: SurfaceInfo, ws: int, k: nat)
    requires t.Valid() && k < MAX_WIN
    ensures var r, w := ScanOne(t, s, ws).wins[k], t.wins[k];
            || (r == w && !(w.active && w.id == s.id))
            || (r.active && r.seen && r.id == s.id && r.va == s.va && (w.active ==> w.id == s.id))
  {
    hide ScanOne;
    var i := FindId(t.wins, s.id, 0);
    OnlyOne(t, i, k);
    if i == MAX_WIN && FindFree(t.wins, 0) < MAX_WIN {
      ScanNew(t, s, ws);
      hide WinTable.Valid;
    } else {
      ScanKnown(t, s, ws);
      hide WinTable.Valid;
    }
  }

  lemma OnlyOne(t: WinTable, i: nat, k: nat)
    requires t.Valid() && i <= MAX_WIN && k < MAX_WIN
    ensures i < MAX_WIN && t.wins[i].active && t.wins[k].active && k != i ==> t.wins[k].id != t.wins[i].id
  {
    if i < k {
      assert t.wins[i].active && t.wins[k].active ==> t.wins[i].id != t.wins[k].id;
    }
  }

  lemma MappedNext(list: seq<SurfaceInfo>, s: SurfaceInfo, id: nat)
    ensures Mapped(list + [s], id) == if s.id == id then Some(s.va) else Mapped(list, id)
  {
    assert (list + [s])[..|list|] == list;
  }

  lemma ScanOneMapped(t: WinTable, done: seq<SurfaceInfo>, s: SurfaceInfo, ws: int)
    requires t.Valid() && SeenMapped(t, done)
    ensures SeenMapped(ScanOne(t, s, ws), done + [s])
  {
    hide ScanOne;
    var r := ScanOne(t, s, ws);
    forall i | 0 <= i < MAX_WIN && r.wins[i].active && r.wins[i].seen
      ensures Mapped(done + [s], r.wins[i].id) == Some(r.wins[i].va)
    {
      ScanOneSlots(t, s, ws, i);
      MappedNext(done, s, r.wins[i].id);
    }
  }

  lemma {:induction false} ScanEachMapped(t: WinTable, done: seq<SurfaceInfo>, list: seq<SurfaceInfo>, ws: int)
    requires t.Valid() && SeenMapped(t, done)
    ensures SeenMapped(ScanEach(t, list, ws), done + list)
    decreases |list|
  {
    hide ScanOne, SeenMapped;
    if list == [] {
      Unit(done);
    } else {
      ScanOneValid(t, list[0], ws);
      ScanOneMapped(t, done, list[0], ws);
      ScanEachMapped(ScanOne(t, list[0], ws), done + [list[0]], list[1..], ws);
      Assoc(done, [list[0]], list[1..]);
      assert [list[0]] + list[1..] == list;
    }
  }

  /** After a scan every active window has the mapping the scan just listed for it. */
  lemma ScanLeaves(t: WinTable, list: seq<SurfaceInfo>, ws: int)
    requires t.Valid()
    ensures var r := Scan(t, Some(list), ws);
            forall i :: 0 <= i < MAX_WIN && r.wins[i].active ==> Mapped(list, r.wins[i].id) == Some(r.wins[i].va)
  {
    hide ScanEach, Mapped;
    UnseenValid(t);
    ScanEachMapped(Unseen(t), [], list, ws);
    Unit(list);
  }

  /** A new window shows exactly when the slot it got was not left hidden. */
  lemma OpenedVisibleIff(t: WinTable, s: SurfaceInfo, ws: int)
    requires t.Valid() && FindId(t.wins, s.id, 0) == MAX_WIN && FindFree(t.wins, 0) < MAX_WIN
    ensures var j := FindFree(t.wins, 0);
            Visible(ScanOne(t, s, ws).wins[j], ws) <==> !t.wins[j].hidden
  {
    hide ScanOne;
    ScanNew(t, s, ws);
  }

  // ----- what a close leaves -----

  /** The slot is free, every other slot is as before, and the focus is dropped only if it was there. */
  lemma CloseIs(t: WinTable, i: nat)
    requires |t.wins| == MAX_WIN && i < MAX_WIN
    ensures var r := Close(t, i);
            && !r.wins[i].active && r.zTop == t.zTop && r.focus == (if t.focus == i then -1 else t.focus)
            && forall k :: 0 <= k < MAX_WIN && k != i ==> r.wins[k] == t.wins[k]
  {
  }

  /** A closed window is neither painted nor hit, and all others are as before. */
  lemma CloseGone(t: WinTable, i: nat, ws: int, d: Monitor, x: int, y: int, k: nat)
    requires t.Valid() && i < MAX_WIN
    ensures k in PaintOrder(Close(t, i), ws, 0) <==> k in PaintOrder(t, ws, 0) && k != i
    ensures Candidate(Close(t, i), ws, d, x, y, k) <==> Candidate(t, ws, d, x, y, k) && k != i
  {
    hide PaintOrder, Hit;
    CloseValid(t, i);
    PaintHas(t, ws, 0, k);
    PaintHas(Close(t, i), ws, 0, k);
  }

  // ----- windows hidden to show the desktop -----

  /** Pressing twice changes nothing exactly when all windows were shown, or all hidden. */
  lemma ToggleTwiceIff(t: WinTable)
    requires |t.wins| == MAX_WIN
    ensures ToggleDesktop(ToggleDesktop(t)) == t
       <==> forall i, j :: 0 <= i < MAX_WIN && 0 <= j < MAX_WIN && t.wins[i].active && t.wins[j].active ==>
              t.wins[i].hidden == t.wins[j].hidden
  {
    var once := ToggleDesktop(t);
    var twice := ToggleDesktop(once);
    forall i | 0 <= i < MAX_WIN
      ensures twice.wins[i] == if t.wins[i].active then t.wins[i].(hidden := AnyHidden(t)) else t.wins[i]
    {
      if t.wins[i].active && !AnyHidden(t) {
        assert once.wins[i].active && once.wins[i].hidden;
      }
    }
    if forall i, j :: 0 <= i < MAX_WIN && 0 <= j < MAX_WIN && t.wins[i].active && t.wins[j].active ==>
        t.wins[i].hidden == t.wins[j].hidden {
      assert twice.wins == t.wins;
    }
  }

  /** A surface appears, the desktop is shown, another surface appears: from there pressing twice hides
      the new window too. */
  lemma ToggleTwiceReached(a: SurfaceInfo, b: SurfaceInfo, ws: int)
    requires a.id != b.id
    ensures var t := Run(NoWindows(), [Scanned(Some([a]), ws), DesktopToggled, Scanned(Some([a, b]), ws)]);
            ToggleDesktop(ToggleDesktop(t)) != t
  {
    hide Scan, ToggleDesktop;
    var es := [Scanned(Some([a]), ws), DesktopToggled, Scanned(Some([a, b]), ws)];
    var t1 := Scan(NoWindows(), Some([a]), ws);
    ScanFirst(NoWindows(), a, ws);
    var t2 := ToggleDesktop(t1);
    ToggleFirst(t1);
    var t3 := Scan(t2, Some([a, b]), ws);
    ScanSecond(t2, a, b, ws);
    assert es[1..] == [DesktopToggled, Scanned(Some([a, b]), ws)];
    assert es[1..][1..] == [Scanned(Some([a, b]), ws)];
    assert [Scanned(Some([a, b]), ws)][1..] == [];
    assert Run(NoWindows(), es) == Run(t1, es[1..]) == Run(t2, es[1..][1..]);
    assert Run(t2, es[1..][1..]) == Run(t3, []) == t3;
    ToggleTwiceIff(t3);
    assert t3.wins[0].hidden != t3.wins[1].hidden;
  }

  /** The second window takes the second slot. */
  lemma ScanSecond(t: WinTable, a: SurfaceInfo, b: SurfaceInfo, ws: int)
    requires t.Valid() && t.wins[0].active && t.wins[0].id == a.id != b.id
    requires forall k :: 1 <= k < MAX_WIN ==> !t.wins[k].active
    ensures var r := Scan(t, Some([a, b]), ws);
            && |r.wins| == MAX_WIN && r.wins[0].active && r.wins[1].active
            && r.wins[0].hidden == t.wins[0].hidden && r.wins[1].hidden == t.wins[1].hidden
  {
    hide ScanOne, FindId, FindFree;
    var u := Unseen(t);
    UnseenValid(t);
    assert u.wins[0].active && u.wins[0].id == a.id;
    assert FindId(u.wins, a.id, 0) == 0;
    var v := ScanOne(u, a, ws);
    ScanKnown(u, a, ws);
    assert v.wins[0].active && v.wins[0].id == a.id && !v.wins[1].active;
    assert FindId(v.wins, b.id, 0) == MAX_WIN && FindFree(v.wins, 0) == 1;
    var r := ScanOne(v, b, ws);
    ScanNew(v, b, ws);
    assert [a, b][1..] == [b] && [b][1..] == [];
    assert ScanEach(u, [a, b], ws) == ScanEach(v, [b], ws) == ScanEach(r, [], ws) == r;
    assert r.wins[0] == v.wins[0] && r.wins[1] == Opened(v.wins[1], b, v.zTop + 2, ws);
  }

  /** Two surfaces that appear together take the first two slots, the later one on top. */
  lemma ScanTwo(a: SurfaceInfo, b: SurfaceInfo, ws: int)
    requires a.id != b.id
    ensures var r, w := Scan(NoWindows(), Some([a, b]), ws), NoWindows().wins[0];
            && r.Valid() && r.wins[0] == Opened(w, a, 2, ws) && r.wins[1] == Opened(w, b, 4, ws)
            && forall k :: 2 <= k < MAX_WIN ==> !r.wins[k].active
  {
    hide ScanOne, FindId, FindFree;
    var u := Unseen(NoWindows());
    UnseenValid(NoWindows());
    assert !u.wins[0].active;
    assert FindId(u.wins, a.id, 0) == MAX_WIN && FindFree(u.wins, 0) == 0;
    var v := ScanOne(u, a, ws);
    ScanNew(u, a, ws);
    assert v.wins[0].active && v.wins[0].id == a.id && !v.wins[1].active;
    assert FindId(v.wins, b.id, 0) == MAX_WIN && FindFree(v.wins, 0) == 1;
    var r := ScanOne(v, b, ws);
    ScanNew(v, b, ws);
    assert [a, b][1..] == [b] && [b][1..] == [];
    assert ScanEach(u, [a, b], ws) == ScanEach(v, [b], ws) == ScanEach(r, [], ws) == r;
    assert r.wins[0] == v.wins[0] && r.wins[1] == Opened(v.wins[1], b, v.zTop + 2, ws);
    ScanValid(NoWindows(), Some([a, b]), ws);
  }

  ghost predicate NoneHidden(t: WinTable) {
    forall i :: 0 <= i < |t.wins| ==> !t.wins[i].hidden
  }

  lemma ScanOneShows(t: WinTable, s: SurfaceInfo, ws: int)
    requires |t.wins| == MAX_WIN && NoneHidden(t)
    ensures NoneHidden(ScanOne(t, s, ws))
  {
    hide FindId, FindFree, Raise;
    if FindId(t.wins, s.id, 0) == MAX_WIN && FindFree(t.wins, 0) < MAX_WIN {
      var j := FindFree(t.wins, 0);
      RaiseShows(t.(wins := t.wins[j := Opened(t.wins[j], s, t.zTop + 1, ws)], zTop := t.zTop + 1), j);
    }
  }

  lemma RaiseShows(t: WinTable, i: nat)
    requires |t.wins| == MAX_WIN && i < MAX_WIN && NoneHidden(t)
    ensures NoneHidden(Raise(t, i))
  {
  }

  lemma {:induction false} ScanEachShows(t: WinTable, list: seq<SurfaceInfo>, ws: int)
    requires |t.wins| == MAX_WIN && NoneHidden(t)
    ensures NoneHidden(ScanEach(t, list, ws))
    decreases |list|
  {
    if list != [] {
      ScanOneShows(t, list[0], ws);
      ScanEachShows(ScanOne(t, list[0], ws), list[1..], ws);
    }
  }

  /** While the desktop is never shown, no slot is hidden: every new window shows. */
  lemma {:induction false} RunShows(t: WinTable, es: seq<WinEvent>)
    requires |t.wins| == MAX_WIN && NoneHidden(t) && DesktopToggled !in es
    ensures NoneHidden(Run(t, es))
    decreases |es|
  {
    if es != [] {
      if es[0].Scanned? && es[0].list.Some? {
        ScanEachShows(Unseen(t), es[0].list.value, es[0].ws);
      }
      RunShows(Step(t, es[0]), es[1..]);
    }
  }

  /** The table at the start. */
  function NoWindows(): (t: WinTable)
    ensures t.Valid()
  {
    WinTable(seq(MAX_WIN, i => Win(false, false, false, false, false, 0, 0, 0, 0, 0, 0, 0, 0, 0)), 0, -1)
  }

  predicate Vacant(t: WinTable) {
    forall i :: 0 <= i < |t.wins| ==> !t.wins[i].active
  }

  /** The first window takes the first slot. */
  lemma ScanFirst(t: WinTable, s: SurfaceInfo, ws: int)
    requires t.Valid() && Vacant(t)
    ensures var r := Scan(t, Some([s]), ws);
            && r.Valid() && r.wins[0] == Opened(t.wins[0], s, t.zTop + 2, ws)
            && forall k :: 1 <= k < MAX_WIN ==> !r.wins[k].active && r.wins[k].hidden == t.wins[k].hidden
  {
    hide ScanOne, FindId, FindFree;
    var u := Unseen(t);
    UnseenValid(t);
    assert !u.wins[0].active;
    assert FindId(u.wins, s.id, 0) == MAX_WIN && FindFree(u.wins, 0) == 0;
    ScanNew(u, s, ws);
    assert [s][1..] == [];
    assert ScanEach(u, [s], ws) == ScanOne(u, s, ws);
    ScanValid(t, Some([s]), ws);
    var r, v := Scan(t, Some([s]), ws), ScanOne(u, s, ws);
    assert v.wins[0] == Opened(u.wins[0], s, u.zTop + 2, ws) && forall k :: 1 <= k < MAX_WIN ==> v.wins[k] == u.wins[k];
  }

  /** A surface appears, the desktop is shown, the surface goes away, another appears: its window,
      the only one, does not show. */
  lemma NewWindowHidden(a: SurfaceInfo, b: SurfaceInfo, ws: int)
    ensures var es := [Scanned(Some([a]), ws), DesktopToggled, Scanned(Some([]), ws), Scanned(Some([b]), ws)];
            var r := Run(NoWindows(), es);
            r.wins[0].active && r.wins[0].id == b.id && !Visible(r.wins[0], ws)
  {
    hide Scan, ToggleDesktop;
    var es := [Scanned(Some([a]), ws), DesktopToggled, Scanned(Some([]), ws), Scanned(Some([b]), ws)];
    var t1 := Scan(NoWindows(), Some([a]), ws);
    ScanFirst(NoWindows(), a, ws);
    var t2 := ToggleDesktop(t1);
    ToggleFirst(t1);
    var t3 := Scan(t2, Some([]), ws);
    ScanNothing(t2, ws);
    ScanFirst(t3, b, ws);
    assert es[1..] == [DesktopToggled, Scanned(Some([]), ws), Scanned(Some([b]), ws)];
    assert es[1..][1..] == [Scanned(Some([]), ws), Scanned(Some([b]), ws)];
    assert es[1..][1..][1..] == [Scanned(Some([b]), ws)];
    assert [Scanned(Some([b]), ws)][1..] == [];
    assert Run(NoWindows(), es) == Run(t1, es[1..]) == Run(t2, es[1..][1..]) == Run(t3, [Scanned(Some([b]), ws)]);
    assert Run(t3, [Scanned(Some([b]), ws)]) == Scan(t3, Some([b]), ws);
  }

  lemma ToggleFirst(t: WinTable)
    requires t.Valid() && !t.wins[0].hidden && t.wins[0].active && forall k :: 1 <= k < MAX_WIN ==> !t.wins[k].active
    ensures var r := ToggleDesktop(t);
            && r.Valid() && r.wins[0] == t.wins[0].(hidden := true)
            && forall k :: 1 <= k < MAX_WIN ==> r.wins[k] == t.wins[k]
  {
    ToggleValid(t);
  }

  /** A scan that lists nothing frees all slots and keeps their flags. */
  lemma ScanNothing(t: WinTable, ws: int)
    requires t.Valid()
    ensures var r := Scan(t, Some([]), ws);
            r.Valid() && Vacant(r) && forall k :: 0 <= k < MAX_WIN ==> r.wins[k].hidden == t.wins[k].hidden
  {
    ScanValid(t, Some([]), ws);
  }

  // ----- painting and hit test -----

  /** The visible slots from `i` on whose window has this z. */
  function Layer(wins: seq<Win>, ws: int, z: int, i: nat): (o: seq<nat>)
    requires |wins| == MAX_WIN && i <= MAX_WIN
    ensures forall p :: 0 <= p < |o| ==> o[p] < MAX_WIN
    decreases MAX_WIN - i
  {
    if i == MAX_WIN then []
    else (if Visible(wins[i], ws) && wins[i].z == z then [i] else []) + Layer(wins, ws, z, i + 1)
  }

  /** The order in which windows are painted, from z on up. */
  function PaintOrder(t: WinTable, ws: int, z: int): (o: seq<nat>)
    requires |t.wins| == MAX_WIN
    ensures forall p :: 0 <= p < |o| ==> o[p] < MAX_WIN
    decreases t.zTop + 1 - z
  {
    if z > t.zTop then [] else Layer(t.wins, ws, z, 0) + PaintOrder(t, ws, z + 1)
  }

  lemma {:induction false} LayerHas(t: WinTable, ws: int, z: int, i: nat, k: nat)
    requires t.Valid() && i <= MAX_WIN
    ensures k in Layer(t.wins, ws, z, i) <==> i <= k < MAX_WIN && Visible(t.wins[k], ws) && t.wins[k].z == z
    decreases MAX_WIN - i
  {
    hide Visible;
    if i < MAX_WIN {
      LayerHas(t, ws, z, i + 1, k);
    }
  }

  /** Windows differ in z, so a layer is at most one window. */
  lemma {:induction false} LayerOne(t: WinTable, ws: int, z: int, i: nat)
    requires t.Valid() && i <= MAX_WIN
    ensures |Layer(t.wins, ws, z, i)| <= 1
    decreases MAX_WIN - i
  {
    if i < MAX_WIN {
      LayerOne(t, ws, z, i + 1);
      var rest := Layer(t.wins, ws, z, i + 1);
      if rest != [] {
        LayerHas(t, ws, z, i + 1, rest[0]);
        assert rest[0] in rest;
      }
    }
  }

  /** Every visible window is painted ... */
  lemma {:induction false} PaintHas(t: WinTable, ws: int, z: int, k: nat)
    requires t.Valid()
    ensures k in PaintOrder(t, ws, z) <==> k < MAX_WIN && Visible(t.wins[k], ws) && t.wins[k].z >= z
    decreases t.zTop + 1 - z
  {
    hide Layer, Visible;
    if z <= t.zTop {
      PaintHas(t, ws, z + 1, k);
      LayerHas(t, ws, z, 0, k);
    } else {
      VisibleBelow(t, ws, k);
    }
  }

  lemma VisibleBelow(t: WinTable, ws: int, k: nat)
    requires t.Valid()
    ensures k < MAX_WIN && Visible(t.wins[k], ws) ==> 1 <= t.wins[k].z <= t.zTop
  {
  }

  /** ... once, in the order of z. */
  lemma {:induction false} PaintSorted(t: WinTable, ws: int, z: int)
    requires t.Valid()
    ensures var o := PaintOrder(t, ws, z); forall p, q :: 0 <= p < q < |o| ==> t.wins[o[p]].z < t.wins[o[q]].z
    decreases t.zTop + 1 - z
  {
    hide Layer, Visible, PaintOrder, WinTable.Valid;
    PaintNext(t, ws, z);
    if z <= t.zTop {
      PaintSorted(t, ws, z + 1);
      LayerOne(t, ws, z, 0);
      var a, b := Layer(t.wins, ws, z, 0), PaintOrder(t, ws, z + 1);
      var o := a + b;
      forall p, q | 0 <= p < q < |o|
        ensures t.wins[o[p]].z < t.wins[o[q]].z
      {
        assert o[q] == b[q - |a|] && o[q] in b;
        PaintHas(t, ws, z + 1, o[q]);
        if p < |a| {
          assert o[p] == a[p] && o[p] in a;
          LayerHas(t, ws, z, 0, o[p]);
        } else {
          assert o[p] == b[p - |a|];
        }
      }
    }
  }

  lemma PaintNext(t: WinTable, ws: int, z: int)
    requires t.Valid()
    ensures |t.wins| == MAX_WIN
    ensures PaintOrder(t, ws, z) == if z > t.zTop then [] else Layer(t.wins, ws, z, 0) + PaintOrder(t, ws, z + 1)
  {
  }

  /** A window a click at the point can go to. */
  predicate Candidate(t: WinTable, ws: int, d: Monitor, x: int, y: int, k: int)
    requires |t.wins| == MAX_WIN
  {
    0 <= k < MAX_WIN && Visible(t.wins[k], ws) && Hit(t.wins[k], d, x, y)
  }

  /** The answer to a hit test: the candidate with the greatest z. */
  ghost predicate IsTop(t: WinTable, ws: int, d: Monitor, x: int, y: int, r: Option<nat>)
    requires |t.wins| == MAX_WIN
  {
    if r.None? then forall k :: !Candidate(t, ws, d, x, y, k)
    else Candidate(t, ws, d, x, y, r.value)
         && forall k :: Candidate(t, ws, d, x, y, k) ==> t.wins[k].z <= t.wins[r.value].z
  }

  /** The window hit is the last painted of those at the point. */
  lemma TopIsLastPainted(t: WinTable, ws: int, d: Monitor, x: int, y: int, r: nat)
    requires t.Valid() && IsTop(t, ws, d, x, y, Some(r))
    ensures var o := PaintOrder(t, ws, 0);
            exists p :: 0 <= p < |o| && o[p] == r && forall q :: p < q < |o| ==> !Candidate(t, ws, d, x, y, o[q])
  {
    hide PaintOrder, Hit;
    PaintHas(t, ws, 0, r);
    PaintSorted(t, ws, 0);
    var o := PaintOrder(t, ws, 0);
    assert r in o;
    var p :| 0 <= p < |o| && o[p] == r;
    forall q | p < q < |o|
      ensures !Candidate(t, ws, d, x, y, o[q])
    {
      assert t.wins[o[p]].z < t.wins[o[q]].z;
    }
  }

  // ----- the window manager -----

  class Manager {
    const wins: array<Win>
    var zTop: int
    var focus: int

    constructor ()
      ensures State() == NoWindows() && fresh(wins)
    {
      wins := new Win[MAX_WIN](_ => Win(false, false, false, false, false, 0, 0, 0, 0, 0, 0, 0, 0, 0));
      zTop, focus := 0, -1;
    }

    ghost function State(): WinTable
      reads this, wins
    {
      WinTable(wins[..], zTop, focus)
    }

    /** From the top z down, the first visible window under the point. */
    method WinAt(x: int, y: int, ws: int, d: Monitor) returns (r: Option<nat>)
      requires State().Valid()
      ensures IsTop(State(), ws, d, x, y, r)
    {
      hide Hit;
      var z := zTop;
      while z >= 0
        invariant -1 <= z <= zTop
        invariant forall k :: Candidate(State(), ws, d, x, y, k) ==> wins[k].z <= z
        decreases z
      {
        for i := 0 to MAX_WIN
          invariant forall k :: 0 <= k < i && Candidate(State(), ws, d, x, y, k) ==> wins[k].z < z
        {
          if Visible(wins[i], ws) && wins[i].z == z && Hit(wins[i], d, x, y) {
            return Some(i);
          }
        }
        z := z - 1;
      }
      r := None;
    }

    method BringFront(i: nat)
      requires wins.Length == MAX_WIN && i < MAX_WIN
      modifies this, wins
      ensures State() == Raise(old(State()), i)
    {
      zTop := zTop + 1;
      wins[i] := wins[i].(z := zTop);
      focus := i;
      for k := 0 to MAX_WIN
        invariant zTop == old(zTop) + 1 && focus == i
        invariant forall j :: 0 <= j < MAX_WIN ==>
                    wins[j] == if j < k || j == i then Raise(old(State()), i).wins[j] else old(wins[j])
      {
        if wins[k].active && k != i && wins[k].z >= wins[i].z {
          wins[k] := wins[k].(z := wins[k].z - 1);
        }
      }
    }

    method Find(id: nat) returns (i: nat)
      requires wins.Length == MAX_WIN
      ensures i == FindId(wins[..], id, 0)
    {
      i := 0;
      while i < MAX_WIN
        invariant 0 <= i <= MAX_WIN && FindId(wins[..], id, 0) == FindId(wins[..], id, i)
      {
        if wins[i].active && wins[i].id == id {
          return;
        }
        i := i + 1;
      }
    }

    method Free() returns (j: nat)
      requires wins.Length == MAX_WIN
      ensures j == FindFree(wins[..], 0)
    {
      j := 0;
      while j < MAX_WIN
        invariant 0 <= j <= MAX_WIN && FindFree(wins[..], 0) == FindFree(wins[..], j)
      {
        if !wins[j].active {
          return;
        }
        j := j + 1;
      }
    }

    method ScanSurface(s: SurfaceInfo, ws: int)
      requires wins.Length == MAX_WIN
      modifies this, wins
      ensures State() == ScanOne(old(State()), s, ws)
    {
      hide Raise, FindId, FindFree;
      ghost var was := wins[..];
      var i := Find(s.id);
      if i < MAX_WIN {
        wins[i] := wins[i].(seen := true, w := s.w, h := s.h, va := s.va);
        assert wins[..] == was[i := was[i].(seen := true, w := s.w, h := s.h, va := s.va)];
        return;
      }
      var j := Free();
      if j == MAX_WIN {
        return;
      }
      zTop := zTop + 1;
      wins[j] := Opened(wins[j], s, zTop, ws);
      focus := j;
      assert wins[..] == was[j := Opened(was[j], s, zTop, ws)];
      RaiseFocus(State(), old(focus), j);
      BringFront(j);
    }

    /** Reconciles the table with what the kernel lists; None is a failed scan. */
    method ScanWindows(list: Option<seq<SurfaceInfo>>, ws: int)
      requires wins.Length == MAX_WIN
      modifies this, wins
      ensures State() == Scan(old(State()), list, ws)
    {
      hide ScanOne;
      if list.None? {
        return;
      }
      ghost var t0 := State();
      for i := 0 to MAX_WIN
        invariant zTop == old(zTop) && focus == old(focus)
        invariant forall j :: 0 <= j < MAX_WIN ==> wins[j] == if j < i then t0.wins[j].(seen := false) else t0.wins[j]
      {
        wins[i] := wins[i].(seen := false);
      }
      assert State().wins == Unseen(t0).wins;
      var arr := list.value;
      ghost var all := ScanEach(State(), arr, ws);
      assert arr[0..] == arr;
      for i := 0 to |arr|
        invariant all == ScanEach(State(), arr[i..], ws)
      {
        assert arr[i..][1..] == arr[i + 1..];
        ScanSurface(arr[i], ws);
      }
      Drop();
    }

    method Drop()
      requires wins.Length == MAX_WIN
      modifies this, wins
      ensures State() == DropUnseen(old(State()))
    {
      ghost var t := State();
      for i := 0 to MAX_WIN
        invariant zTop == t.zTop
        invariant forall j :: 0 <= j < MAX_WIN ==> wins[j] == if j < i then DropUnseen(t).wins[j] else t.wins[j]
        invariant focus == if 0 <= t.focus < i && t.wins[t.focus].active && !t.wins[t.focus].seen then -1 else t.focus
      {
        if wins[i].active && !wins[i].seen {
          wins[i] := wins[i].(active := false, va := 0);
          if focus == i {
            focus := -1;
          }
        }
      }
      assert State().wins == DropUnseen(t).wins;
    }

    method ShowDesktopToggle()
      requires wins.Length == MAX_WIN
      modifies wins
      ensures State() == ToggleDesktop(old(State()))
    {
      ghost var t := State();
      var anyHidden := false;
      for i := 0 to MAX_WIN
        invariant anyHidden <==> exists k :: 0 <= k < i && t.wins[k].active && t.wins[k].hidden
      {
        if wins[i].active && wins[i].hidden {
          anyHidden := true;
        }
      }
      for i := 0 to MAX_WIN
        invariant forall k :: 0 <= k < MAX_WIN ==> wins[k] == if k < i then ToggleDesktop(t).wins[k] else t.wins[k]
      {
        if wins[i].active {
          wins[i] := wins[i].(hidden := !anyHidden);
        }
      }
      assert State().wins == ToggleDesktop(t).wins;
    }

    /** The end of a close animation destroys the surface and frees the slot. */
    method CloseDone(i: nat)
      requires wins.Length == MAX_WIN && i < MAX_WIN
      modifies this, wins
      ensures State() == Close(old(State()), i)
    {
      if focus == i {
        focus := -1;
      }
      wins[i] := wins[i].(active := false);
    }
  }

  /** Raising sets the focus whatever it was. */
  lemma RaiseFocus(t: WinTable, focus: int, i: nat)
    requires |t.wins| == MAX_WIN && i < MAX_WIN
    ensures Raise(t, i) == Raise(t.(focus := focus), i)
  {
  }
}
