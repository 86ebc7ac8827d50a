/** The kernel's table of window surfaces, and what the window manager makes of the surfaces it lists. */
module Surfaces {
  import opened Bits
  import opened Windows
  import opened WindowScan

  const MAX_SURFACES := 8
  const WM_BASE := 0x6400_0000
  const APP_BASE := 0x6000_0000
  const STRIDE := 0x40_0000
  const MAX_W := 1280
  const MAX_H := 800
  const PAGE := 4096

  datatype Surf = Surf(used: bool, id: nat, owner: nat, w: nat, h: nat, x: nat, y: nat, appVa: nat, wmVa: nat)

  const BLANK := Surf(false, 0, 0, 0, 0, 0, 0, 0, 0)

  type Table = s: seq<Surf> | |s| == MAX_SURFACES witness seq(MAX_SURFACES, i => BLANK)

  // ----- what the system calls do -----

  predicate SizeOk(w: nat, h: nat) { 16 <= w <= MAX_W && 16 <= h <= MAX_H }

  predicate PagesOk(w: nat, h: nat) { (w * h * 4 + PAGE - 1) / PAGE <= STRIDE / PAGE }

  /** The first unused slot from `i` on, or the number of slots. */
  function Free(k: Table, i: nat): (r: nat)
    requires i <= MAX_SURFACES
    ensures i <= r <= MAX_SURFACES && (r < MAX_SURFACES ==> !k[r].used) && forall j :: i <= j < r ==> k[j].used
    decreases MAX_SURFACES - i
  {
    if i == MAX_SURFACES || !k[i].used then i else Free(k, i + 1)
  }

  function Centre(whole: nat, part: nat): nat { if whole > part then (whole - part) / 2 else 0 }

  /** A slot once its surface is set up: the slot was cleared after its number went into the id. */
  function Filled(pid: nat, w: nat, h: nat, fbW: nat, fbH: nat): Surf {
    Surf(true, 0, pid, w, h, Centre(fbW, w), Centre(fbH, h), APP_BASE, WM_BASE)
  }

  /** The id and the table after a surface was asked for; `lucky` says that there is memory for its pages. */
  function Create(k: Table, pid: nat, w: nat, h: nat, fbW: nat, fbH: nat, lucky: bool): (Option<nat>, Table) {
    var i := Free(k, 0);
    if !SizeOk(w, h) || i == MAX_SURFACES then (None, k)
    else if !PagesOk(w, h) then (None, k[i := k[i].(id := i)])
    else if !lucky then (None, k[i := Filled(pid, w, h, fbW, fbH).(used := false)])
    else (Some(0), k[i := Filled(pid, w, h, fbW, fbH)])
  }

  /** Only the owner and the window manager may destroy a surface. */
  function Destroy(k: Table, id: nat, pid: nat, isWm: bool): (bool, Table) {
    if id >= MAX_SURFACES || !k[id].used || (pid != k[id].owner && !isWm) then (false, k)
    else (true, k[id := BLANK])
  }

  /** All surfaces of a task that ended are torn down. */
  function OwnerDied(k: Table, pid: nat): Table {
    seq(MAX_SURFACES, i requires 0 <= i < MAX_SURFACES => if k[i].used && k[i].owner == pid then BLANK else k[i])
  }

  function Info(s: Surf): SurfaceInfo { SurfaceInfo(s.id, s.owner, s.wmVa, s.x, s.y, s.w, s.h) }

  /** What a scan lists: the used slots from `i` on. */
  function ListFrom(k: Table, i: nat): (r: seq<SurfaceInfo>)
    requires i <= MAX_SURFACES
    ensures |r| <= MAX_SURFACES - i
    decreases MAX_SURFACES - i
  {
    if i == MAX_SURFACES then []
    else (if k[i].used then [Info(k[i])] else []) + ListFrom(k, i + 1)
  }

  /** The largest surface fits its part of the address space. */
  lemma PagesFit(w: nat, h: nat)
    requires SizeOk(w, h)
    ensures PagesOk(w, h) && 4 * (w * h) <= STRIDE
  {
    MulMono(w, h, MAX_H);
    MulMono(MAX_H, w, MAX_W);
  }

  /** The space on both sides is the same, up to one; what is too large starts at 0. */
  predicate Centred(at: nat, part: nat, whole: nat) {
    if part >= whole then at == 0 else 0 <= whole - part - 2 * at <= 1
  }

  /** A surface is made if and only if it is of accepted size, a slot is unused and there is memory. It takes the
      first unused slot and is put in the middle of the screen; no surface changes. */
  lemma CreateIff(k: Table, pid: nat, w: nat, h: nat, fbW: nat, fbH: nat, lucky: bool, j: nat)
    requires j < 8
    ensures var r, i := Create(k, pid, w, h, fbW, fbH, lucky), Free(k, 0);
            && (r.0.Some? <==> 16 <= w <= 1280 && 16 <= h <= 800 && lucky && exists i :: 0 <= i < 8 && !k[i].used)
            && (r.0.Some? ==> i < 8 && var s := r.1[i];
                  && s.used && s.id == r.0.value && s.owner == pid && s.w == w && s.h == h
                  && Centred(s.x, w, fbW) && Centred(s.y, h, fbH))
            && (k[j].used ==> r.1[j] == k[j])
            && (r.1[j].used <==> k[j].used || (r.0.Some? && j == i))
  {
    hide PagesOk;
    if SizeOk(w, h) {
      PagesFit(w, h);
    }
  }

  /** A slot in use is cleared by its owner and by the window manager and by no one else, and no other slot
      changes. */
  lemma DestroyIff(k: Table, id: nat, pid: nat, isWm: bool)
    ensures var r := Destroy(k, id, pid, isWm);
            && (r.0 <==> id < 8 && k[id].used && (pid == k[id].owner || isWm))
            && (r.0 ==> !r.1[id].used) && (!r.0 ==> r.1 == k)
            && forall i :: 0 <= i < 8 && i != id ==> r.1[i] == k[i]
  {
  }

  /** The end of a task clears its slots and no others. */
  lemma DiedIff(k: Table, pid: nat, i: nat)
    requires i < 8
    ensures if k[i].used && k[i].owner == pid then !OwnerDied(k, pid)[i].used else OwnerDied(k, pid)[i] == k[i]
  {
  }

  lemma ListNext(k: Table, i: nat)
    requires i < MAX_SURFACES
    ensures ListFrom(k, i) == (if k[i].used then [Info(k[i])] else []) + ListFrom(k, i + 1)
  {
  }

  lemma {:induction false} ListHas(k: Table, i: nat, j: nat)
    requires i <= j < MAX_SURFACES && k[j].used
    ensures Info(k[j]) in ListFrom(k, i)
    decreases j - i
  {
    hide Info;
    ListNext(k, i);
    if i < j {
      ListHas(k, i + 1, j);
    }
  }

  /** A surface that is made is listed under its id with its owner and size, in the middle of the screen. */
  lemma CreatedListed(k: Table, pid: nat, w: nat, h: nat, fbW: nat, fbH: nat, lucky: bool)
    requires Create(k, pid, w, h, fbW, fbH, lucky).0.Some?
    ensures exists s :: s in ListFrom(Create(k, pid, w, h, fbW, fbH, lucky).1, 0)
              && s.id == Create(k, pid, w, h, fbW, fbH, lucky).0.value && s.owner == pid
              && s.w == w && s.h == h && s.x >= 0 && s.y >= 0 && Centred(s.x, w, fbW) && Centred(s.y, h, fbH)
  {
    hide ListFrom, Create, Free, Centred;
    var r, i := Create(k, pid, w, h, fbW, fbH, lucky).1, Free(k, 0);
    CreateIff(k, pid, w, h, fbW, fbH, lucky, 0);
    CreateIff(k, pid, w, h, fbW, fbH, lucky, i);
    ListHas(r, 0, i);
    var s := Info(r[i]);
    assert s in ListFrom(r, 0);
  }

  /** At most `n` of the listed surfaces. */
  function First(list: seq<SurfaceInfo>, n: nat): seq<SurfaceInfo> {
    if n < |list| then list[..n] else list
  }

  class SurfaceTable {
    const surfs: array<Surf>

    constructor ()
      ensures Valid() && State() == seq(MAX_SURFACES, i => BLANK) && fresh(surfs)
    {
      surfs := new Surf[MAX_SURFACES](_ => BLANK);
    }

    ghost predicate Valid() { surfs.Length == MAX_SURFACES }

    ghost function State(): Table
      requires Valid()
      reads surfs
    {
      surfs[..]
    }

    method FirstFree() returns (i: nat)
      requires Valid()
      ensures i == Free(State(), 0)
    {
      i := 0;
      while i < MAX_SURFACES && surfs[i].used
        invariant i <= MAX_SURFACES && Free(State(), 0) == Free(State(), i)
      {
        i := i + 1;
      }
    }

    method WmCreate(pid: nat, w: nat, h: nat, fbW: nat, fbH: nat, lucky: bool) returns (id: Option<nat>)
      requires Valid()
      modifies surfs
      ensures (id, State()) == Create(old(State()), pid, w, h, fbW, fbH, lucky)
    {
      hide Free, PagesOk;
      ghost var was := State();
      if w < 16 || h < 16 || w > MAX_W || h > MAX_H {
        return None;
      }
      var i := FirstFree();
      if i == MAX_SURFACES {
        return None;
      }
      surfs[i] := surfs[i].(id := i);
      assert State() == was[i := was[i].(id := i)];
      if !PagesOk(w, h) {
        return None;
      }
      surfs[i] := BLANK;
      surfs[i] := surfs[i].(used := true, owner := pid, w := w, h := h);
      surfs[i] := surfs[i].(appVa := APP_BASE + surfs[i].id * STRIDE, wmVa := WM_BASE + surfs[i].id * STRIDE);
      surfs[i] := surfs[i].(x := if fbW > w then (fbW - w) / 2 else 0, y := if fbH > h then (fbH - h) / 2 else 0);
      assert State() == was[i := Filled(pid, w, h, fbW, fbH)];
      if !lucky {
        surfs[i] := surfs[i].(used := false);
        assert State() == was[i := Filled(pid, w, h, fbW, fbH).(used := false)];
        return None;
      }
      id := Some(surfs[i].id);
    }

    method WmDestroy(id: nat, pid: nat, isWm: bool) returns (ok: bool)
      requires Valid()
      modifies surfs
      ensures (ok, State()) == Destroy(old(State()), id, pid, isWm)
    {
      if id >= MAX_SURFACES || !surfs[id].used {
        return false;
      }
      if pid != surfs[id].owner && !isWm {
        return false;
      }
      surfs[id] := BLANK;
      ok := true;
    }

    method WmOwnerDied(pid: nat)
      requires Valid()
      modifies surfs
      ensures State() == OwnerDied(old(State()), pid)
    {
      ghost var was := State();
      for i := 0 to MAX_SURFACES
        invariant forall j :: 0 <= j < MAX_SURFACES ==> surfs[j] == if j < i then OwnerDied(was, pid)[j] else was[j]
      {
        if surfs[i].used && surfs[i].owner == pid {
          surfs[i] := BLANK;
        }
      }
      assert State() == OwnerDied(was, pid);
    }

    method WmScan(max: nat) returns (out: seq<SurfaceInfo>)
      requires Valid()
      ensures out == First(ListFrom(State(), 0), max)
    {
      hide ListFrom, Info;
      var n := if max > MAX_SURFACES then MAX_SURFACES else max;
      ghost var all := ListFrom(State(), 0);
      out := [];
      var i := 0;
      while i < MAX_SURFACES && |out| < n
        invariant i <= MAX_SURFACES && |out| <= n && all == out + ListFrom(State(), i)
      {
        ListNext(State(), i);
        if surfs[i].used {
          Assoc(out, [Info(surfs[i])], ListFrom(State(), i + 1));
          out := out + [Info(surfs[i])];
        } else {
          assert [] + ListFrom(State(), i + 1) == ListFrom(State(), i + 1);
        }
        i := i + 1;
      }
      assert i == MAX_SURFACES ==> ListFrom(State(), i) == [];
      assert all[..|out|] == out;
    }
  }

  // ----- the system: kernel table and window table -----

  datatype System = System(k: Table, t: WinTable)

  const START := System(seq(MAX_SURFACES, i => BLANK), NoWindows())

  /** System calls and the window manager's own steps; it scans for up to as many surfaces as it has slots. */
  datatype SysEvent =
    | Created(pid: nat, w: nat, h: nat, fbW: nat, fbH: nat, lucky: bool)
    | Destroyed(id: nat, pid: nat, isWm: bool)
    | Died(pid: nat)
    | Looked(ws: int)
    | Managed(e: WinEvent)

  function Listing(k: Table): seq<SurfaceInfo> { First(ListFrom(k, 0), MAX_WIN) }

  function After(s: System, e: SysEvent): (r: System)
    requires |s.t.wins| == MAX_WIN
    ensures |r.t.wins| == MAX_WIN
  {
    match e
    case Created(pid, w, h, fbW, fbH, lucky) => s.(k := Create(s.k, pid, w, h, fbW, fbH, lucky).1)
    case Destroyed(id, pid, isWm) => s.(k := Destroy(s.k, id, pid, isWm).1)
    case Died(pid) => s.(k := OwnerDied(s.k, pid))
    case Looked(ws) => s.(t := Scan(s.t, Some(Listing(s.k)), ws))
    case Managed(e) => if e.Scanned? then s else s.(t := Step(s.t, e))
  }

  function AfterAll(s: System, es: seq<SysEvent>): (r: System)
    requires |s.t.wins| == MAX_WIN
    ensures |r.t.wins| == MAX_WIN
    decreases |es|
  {
    if es == [] then s else AfterAll(After(s, es[0]), es[1..])
  }

  /** Every surface in use goes by the number 0. */
  ghost predicate Numbered0(k: Table) {
    forall i :: 0 <= i < MAX_SURFACES && k[i].used ==> k[i].id == 0 && k[i].wmVa == WM_BASE
  }

  lemma ListedMore(s: SurfaceInfo, rest: seq<SurfaceInfo>)
    ensures Listed([s] + rest) <= {s.id} + Listed(rest)
  {
    var all := [s] + rest;
    forall j | 0 <= j < |all|
      ensures all[j].id in {s.id} + Listed(rest)
    {
      assert j > 0 ==> all[j] == rest[j - 1];
    }
  }

  lemma {:induction false} Listed0(k: Table, i: nat)
    requires Numbered0(k) && i <= MAX_SURFACES
    ensures Listed(ListFrom(k, i)) <= {0}
    decreases MAX_SURFACES - i
  {
    if i < MAX_SURFACES {
      Listed0(k, i + 1);
      ListNext(k, i);
      hide ListFrom;
      if k[i].used {
        ListedMore(Info(k[i]), ListFrom(k, i + 1));
      } else {
        assert [] + ListFrom(k, i + 1) == ListFrom(k, i + 1);
      }
    }
  }

  lemma ListingShort(k: Table)
    ensures Listing(k) == ListFrom(k, 0)
  {
    assert |ListFrom(k, 0)| <= MAX_SURFACES < MAX_WIN;
  }

  lemma AfterKeeps(s: System, e: SysEvent)
    requires Numbered0(s.k) && s.t.Valid() && Ids(s.t) <= {0}
    ensures var r := After(s, e); Numbered0(r.k) && r.t.Valid() && Ids(r.t) <= {0}
  {
    hide Ids, Listed, Scan, Step, WinTable.Valid, ListFrom, First;
    Slots(s.t);
    if e.Looked? {
      Listed0(s.k, 0);
      ListingShort(s.k);
      ScanAdds(s.t, Listing(s.k), e.ws);
      ScanValid(s.t, Some(Listing(s.k)), e.ws);
    } else if e.Managed? && !e.e.Scanned? {
      StepAdds(s.t, e.e);
      StepValid(s.t, e.e);
    }
  }

  /** Over every run: all surfaces go by the number 0, and so does every window. */
  lemma {:induction false} RunKeeps(s: System, es: seq<SysEvent>)
    requires Numbered0(s.k) && s.t.Valid() && Ids(s.t) <= {0}
    ensures var r := AfterAll(s, es); Numbered0(r.k) && r.t.Valid() && Ids(r.t) <= {0}
    decreases |es|
  {
    hide After, Numbered0, Ids, WinTable.Valid;
    Slots(s.t);
    if es != [] {
      AfterKeeps(s, es[0]);
      RunKeeps(After(s, es[0]), es[1..]);
    }
  }

  /** The event is one that may take slot `i` away: its owner or the window manager destroys it, or its owner
      ends. */
  predicate Ends(k: Table, e: SysEvent, i: nat)
    requires i < MAX_SURFACES
  {
    || (e.Destroyed? && e.id == i && (e.pid == k[i].owner || e.isWm))
    || (e.Died? && e.pid == k[i].owner)
  }

  /** Over every run a surface stays as it is until such an event, and then it is gone. */
  lemma {:induction false} SurfaceStays(s: System, es: seq<SysEvent>, i: nat)
    requires |s.t.wins| == MAX_WIN && i < MAX_SURFACES && s.k[i].used
    requires forall j :: 0 <= j < |es| ==> !Ends(s.k, es[j], i)
    ensures AfterAll(s, es).k[i] == s.k[i]
    decreases |es|
  {
    hide Scan, Step;
    if es != [] {
      var r := After(s, es[0]);
      assert r.k[i] == s.k[i];
      assert forall j :: 0 <= j < |es| ==> Ends(r.k, es[j], i) == Ends(s.k, es[j], i);
      SurfaceStays(r, es[1..], i);
    }
  }

  lemma SurfaceEnds(s: System, e: SysEvent, i: nat)
    requires |s.t.wins| == MAX_WIN && i < MAX_SURFACES && s.k[i].used
    ensures After(s, e).k[i].used <==> !Ends(s.k, e, i)
  {
    hide Scan, Step;
  }

  /** There is never more than one window. */
  lemma OneWindow(es: seq<SysEvent>, i: nat, j: nat)
    requires i < j < MAX_WIN
    ensures var t := AfterAll(START, es).t; !(t.wins[i].active && t.wins[j].active)
  {
    hide AfterAll;
    NoIdsYet();
    RunKeeps(START, es);
    var t := AfterAll(START, es).t;
    forall n | 0 <= n < MAX_WIN && t.wins[n].active
      ensures t.wins[n].id == 0
    {
      assert t.wins[n].id in Ids(t);
    }
    OnlyOne(t, i, j);
  }

  /** After any run and a scan, the surfaces have windows of their own exactly when there is at most one. */
  lemma OwnWindowIff(es: seq<SysEvent>, ws: int)
    ensures var s := AfterAll(START, es);
            (exists f :: Own(After(s, Looked(ws)).t, Listing(s.k), f)) <==> |Listing(s.k)| <= 1
  {
    hide AfterAll, Scan, WinTable.Valid, ListFrom, First, Own;
    NoIdsYet();
    RunKeeps(START, es);
    var s := AfterAll(START, es);
    var list, r := Listing(s.k), After(s, Looked(ws)).t;
    AfterKeeps(s, Looked(ws));
    Listed0(s.k, 0);
    ListingShort(s.k);
    OwnIff(r, list);
    ServedBy0(s.t, list, ws);
    forall i | 0 <= i < |list|
      ensures list[i].id == 0
    {
      assert list[i].id in Listed(list);
    }
    assert |list| >= 2 ==> list[0].id == list[1].id;
  }

  lemma ServedBy0(t: WinTable, list: seq<SurfaceInfo>, ws: int)
    requires t.Valid() && Ids(t) <= {0} && Listed(list) <= {0}
    ensures Listed(list) <= Ids(Scan(t, Some(list), ws))
  {
    hide Ids, Listed, Scan, AllServed, WinTable.Valid;
    Slots(t);
    SubsetSize(Ids(t) + Listed(list), {0});
    ScanServesIff(t, list, ws);
    ServedIds(Scan(t, Some(list), ws), list);
  }

  /** Two programs that each create a surface share one window. */
  lemma TwoShareOne(ws: int)
    ensures var es := [Created(1, 320, 480, 1920, 1080, true), Created(2, 320, 480, 1920, 1080, true)];
            var s := AfterAll(START, es);
            |Listing(s.k)| == 2 && !exists f :: Own(After(s, Looked(ws)).t, Listing(s.k), f)
  {
    var a, b := Created(1, 320, 480, 1920, 1080, true), Created(2, 320, 480, 1920, 1080, true);
    var s1 := After(START, a);
    var s2 := After(s1, b);
    assert [a, b][1..] == [b] && [b][1..] == [];
    assert AfterAll(START, [a, b]) == AfterAll(s1, [b]) == s2;
    TwoListed();
    OwnWindowIff([a, b], ws);
  }

  lemma TwoListed()
    ensures var a, b := Created(1, 320, 480, 1920, 1080, true), Created(2, 320, 480, 1920, 1080, true);
            |Listing(After(After(START, a), b).k)| == 2
  {
    var s1 := After(START, Created(1, 320, 480, 1920, 1080, true));
    assert s1.k[0].used && !s1.k[1].used && forall i :: 1 <= i < MAX_SURFACES ==> s1.k[i] == BLANK;
    assert Free(s1.k, 0) == 1;
    var k := After(s1, Created(2, 320, 480, 1920, 1080, true)).k;
    assert k[0].used && k[1].used && forall i :: 2 <= i < MAX_SURFACES ==> k[i] == BLANK;
    NoneListed(k, 2);
    ListNext(k, 0);
    ListNext(k, 1);
    ListingShort(k);
  }

  lemma {:induction false} NoneListed(k: Table, i: nat)
    requires i <= MAX_SURFACES && forall j :: i <= j < MAX_SURFACES ==> !k[j].used
    ensures ListFrom(k, i) == []
    decreases MAX_SURFACES - i
  {
    if i < MAX_SURFACES {
      NoneListed(k, i + 1);
    }
  }
}
