/** Which of the surfaces a scan lists get a window. */
module WindowScan {
  import opened Bits
  import opened Windows

  /** The ids of the windows in the first `n` slots. */
  function IdsIn(wins: seq<Win>, n: nat): set<nat>
    requires n <= |wins|
  {
    set i | 0 <= i < n && wins[i].active :: wins[i].id
  }

  function Ids(t: WinTable): set<nat> { IdsIn(t.wins, |t.wins|) }

  function Listed(list: seq<SurfaceInfo>): set<nat> {
    set i | 0 <= i < |list| :: list[i].id
  }

  /** The windows there are and the listed surfaces have at most as many ids as there are slots. */
  predicate Fits(t: WinTable, list: seq<SurfaceInfo>) {
    |Ids(t) + Listed(list)| <= MAX_WIN
  }

  predicate Room(t: WinTable, id: nat) {
    id in Ids(t) || |Ids(t)| < MAX_WIN
  }

  lemma Slots(t: WinTable)
    requires t.Valid()
    ensures |t.wins| == MAX_WIN
  {
  }

  lemma IdsNext(wins: seq<Win>, n: nat)
    requires n < |wins|
    ensures IdsIn(wins, n + 1) == if wins[n].active then IdsIn(wins, n) + {wins[n].id} else IdsIn(wins, n)
  {
  }

  lemma IdsFresh(t: WinTable, n: nat)
    requires t.Valid() && n < MAX_WIN && t.wins[n].active
    ensures t.wins[n].id !in IdsIn(t.wins, n)
  {
  }

  lemma {:induction false} IdsCount(t: WinTable, n: nat)
    requires t.Valid() && n <= MAX_WIN
    ensures |IdsIn(t.wins, n)| <= n
    ensures (forall i :: 0 <= i < n ==> t.wins[i].active) ==> |IdsIn(t.wins, n)| == n
  {
    hide IdsIn;
    if n == 0 {
      NoIds(t.wins);
    } else {
      IdsCount(t, n - 1);
      IdsNext(t.wins, n - 1);
      if t.wins[n - 1].active {
        IdsFresh(t, n - 1);
      }
    }
  }

  lemma NoIds(wins: seq<Win>)
    ensures IdsIn(wins, 0) == {}
  {
  }

  /** Scanning a surface keeps the windows there are and adds at most its own. */
  lemma ScanOneIds(t: WinTable, s: SurfaceInfo, ws: int)
    requires t.Valid()
    ensures Ids(t) <= Ids(ScanOne(t, s, ws)) <= Ids(t) + {s.id}
  {
    hide ScanOne, WinTable.Valid;
    Slots(t);
    var r := ScanOne(t, s, ws);
    forall id | id in Ids(t)
      ensures id in Ids(r)
    {
      var k :| 0 <= k < |t.wins| && t.wins[k].active && t.wins[k].id == id;
      ScanOneSlots(t, s, ws, k);
      assert r.wins[k].active && r.wins[k].id == id;
    }
    forall id | id in Ids(r)
      ensures id in Ids(t) + {s.id}
    {
      var k :| 0 <= k < |r.wins| && r.wins[k].active && r.wins[k].id == id;
      ScanOneSlots(t, s, ws, k);
    }
  }

  lemma ScanOneSeen(t: WinTable, s: SurfaceInfo, ws: int, id: nat)
    requires t.Valid() && SeenId(t, id)
    ensures SeenId(ScanOne(t, s, ws), id)
  {
    hide ScanOne, WinTable.Valid;
    Slots(t);
    var k :| 0 <= k < MAX_WIN && t.wins[k].active && t.wins[k].seen && t.wins[k].id == id;
    ScanOneSlots(t, s, ws, k);
    assert ScanOne(t, s, ws).wins[k].id == id;
  }

  /** A surface is served when it has a window or there is a free slot. */
  lemma ScanOneServes(t: WinTable, s: SurfaceInfo, ws: int)
    requires t.Valid() && Room(t, s.id)
    ensures SeenId(ScanOne(t, s, ws), s.id)
  {
    hide ScanOne, WinTable.Valid;
    Slots(t);
    var r, i, j := ScanOne(t, s, ws), FindId(t.wins, s.id, 0), FindFree(t.wins, 0);
    if i < MAX_WIN {
      ScanKnown(t, s, ws);
      assert r.wins[i].active && r.wins[i].seen && r.wins[i].id == s.id;
    } else {
      IdsCount(t, MAX_WIN);
      ScanNew(t, s, ws);
      assert r.wins[j].active && r.wins[j].seen && r.wins[j].id == s.id;
    }
  }

  lemma {:induction false} ScanEachIds(t: WinTable, list: seq<SurfaceInfo>, ws: int)
    requires t.Valid()
    ensures ScanEach(t, list, ws).Valid() && Ids(t) <= Ids(ScanEach(t, list, ws))
    ensures forall id: nat :: SeenId(t, id) ==> SeenId(ScanEach(t, list, ws), id)
    decreases |list|
  {
    hide ScanOne, Ids, SeenId, WinTable.Valid;
    Slots(t);
    if list != [] {
      ScanOneValid(t, list[0], ws);
      ScanOneIds(t, list[0], ws);
      forall id: nat | SeenId(t, id) {
        ScanOneSeen(t, list[0], ws, id);
      }
      ScanEachIds(ScanOne(t, list[0], ws), list[1..], ws);
    }
  }

  lemma ListedRest(list: seq<SurfaceInfo>)
    requires list != []
    ensures list[0].id in Listed(list) && Listed(list[1..]) <= Listed(list)
  {
  }

  /** There is room for the first listed surface, and for the others after it. */
  lemma RoomFor(t: WinTable, list: seq<SurfaceInfo>, ws: int)
    requires t.Valid() && list != [] && Fits(t, list)
    ensures Room(t, list[0].id) && Fits(ScanOne(t, list[0], ws), list[1..])
  {
    hide ScanOne, Ids, Listed, WinTable.Valid;
    Slots(t);
    ListedRest(list);
    if list[0].id !in Ids(t) {
      Fewer(Ids(t), Ids(t) + Listed(list), list[0].id);
    }
    ScanOneIds(t, list[0], ws);
    SubsetSize(Ids(ScanOne(t, list[0], ws)) + Listed(list[1..]), Ids(t) + Listed(list));
  }

  lemma ScanEachNext(t: WinTable, list: seq<SurfaceInfo>, ws: int)
    requires |t.wins| == MAX_WIN && list != []
    ensures ScanEach(t, list, ws) == ScanEach(ScanOne(t, list[0], ws), list[1..], ws)
  {
  }

  lemma {:induction false} ScanEachServes(t: WinTable, list: seq<SurfaceInfo>, ws: int, k: nat)
    requires t.Valid() && k < |list| && Fits(t, list)
    ensures SeenId(ScanEach(t, list, ws), list[k].id)
    decreases |list|
  {
    hide ScanOne, ScanEach, Ids, Listed, SeenId, WinTable.Valid, Fits, Room;
    Slots(t);
    ScanEachNext(t, list, ws);
    ScanOneValid(t, list[0], ws);
    RoomFor(t, list, ws);
    if k == 0 {
      ScanOneServes(t, list[0], ws);
      ScanEachIds(ScanOne(t, list[0], ws), list[1..], ws);
    } else {
      ScanEachServes(ScanOne(t, list[0], ws), list[1..], ws, k - 1);
    }
  }

  lemma {:induction false} SubsetSize(a: set<nat>, b: set<nat>)
    requires a <= b
    ensures |a| <= |b|
    decreases a
  {
    if a != {} {
      var e :| e in a;
      SubsetSize(a - {e}, b - {e});
    }
  }

  lemma Fewer(a: set<nat>, b: set<nat>, e: nat)
    requires a <= b && e in b && e !in a
    ensures |a| < |b|
  {
    SubsetSize(a + {e}, b);
  }

  /** Every listed id has a window. */
  ghost predicate AllServed(t: WinTable, list: seq<SurfaceInfo>)
    requires |t.wins| == MAX_WIN
  {
    forall k :: 0 <= k < |list| ==> SeenId(t, list[k].id)
  }

  lemma ServedIds(t: WinTable, list: seq<SurfaceInfo>)
    requires |t.wins| == MAX_WIN && AllServed(t, list)
    ensures Listed(list) <= Ids(t)
  {
  }

  lemma ServedFits(t: WinTable, r: WinTable, list: seq<SurfaceInfo>)
    requires r.Valid() && Ids(t) <= Ids(r) && AllServed(r, list)
    ensures Fits(t, list)
  {
    assert |r.wins| == MAX_WIN;
    ServedIds(r, list);
    IdsCount(r, MAX_WIN);
    hide WinTable.Valid, AllServed, Listed;
    SubsetSize(Ids(t) + Listed(list), Ids(r));
  }

  lemma DropServes(t: WinTable, list: seq<SurfaceInfo>)
    requires |t.wins| == MAX_WIN
    ensures AllServed(t, list) <==> AllServed(DropUnseen(t), list)
  {
    hide DropUnseen, SeenId;
    forall k | 0 <= k < |list|
      ensures SeenId(t, list[k].id) <==> SeenId(DropUnseen(t), list[k].id)
    {
      DropKeepsSeen(t, list[k].id);
    }
  }

  /** After a scan every listed id has a window exactly when the windows the table had and the listed
      surfaces have at most as many ids as there are slots. */
  lemma ScanServesIff(t: WinTable, list: seq<SurfaceInfo>, ws: int)
    requires t.Valid()
    ensures AllServed(Scan(t, Some(list), ws), list) <==> Fits(t, list)
  {
    hide ScanEach, WinTable.Valid, DropUnseen, Unseen, Ids, Listed, SeenId;
    Slots(t);
    var u := Unseen(t);
    var v := ScanEach(u, list, ws);
    UnseenValid(t);
    UnseenIds(t);
    ScanEachIds(u, list, ws);
    DropServes(v, list);
    if Fits(t, list) {
      forall k | 0 <= k < |list|
        ensures SeenId(v, list[k].id)
      {
        ScanEachServes(u, list, ws, k);
      }
    } else if AllServed(v, list) {
      ServedFits(t, v, list);
    }
  }

  lemma UnseenIds(t: WinTable)
    requires |t.wins| == MAX_WIN
    ensures Ids(Unseen(t)) == Ids(t)
  {
    var u := Unseen(t);
    assert forall i :: 0 <= i < MAX_WIN ==> u.wins[i].active == t.wins[i].active && u.wins[i].id == t.wins[i].id;
  }

  lemma DropKeepsSeen(t: WinTable, id: nat)
    requires |t.wins| == MAX_WIN
    ensures SeenId(t, id) <==> SeenId(DropUnseen(t), id)
  {
    var r := DropUnseen(t);
    if SeenId(t, id) {
      var i :| 0 <= i < MAX_WIN && t.wins[i].active && t.wins[i].seen && t.wins[i].id == id;
      assert r.wins[i] == t.wins[i];
    }
    if SeenId(r, id) {
      var i :| 0 <= i < MAX_WIN && r.wins[i].active && r.wins[i].seen && r.wins[i].id == id;
      assert r.wins[i] == t.wins[i];
    }
  }

  // ----- ids over runs -----

  lemma {:induction false} ScanEachAdds(t: WinTable, list: seq<SurfaceInfo>, ws: int)
    requires t.Valid()
    ensures Ids(ScanEach(t, list, ws)) <= Ids(t) + Listed(list)
    decreases |list|
  {
    hide ScanOne, Ids, Listed, WinTable.Valid;
    Slots(t);
    if list != [] {
      ScanOneValid(t, list[0], ws);
      ScanOneIds(t, list[0], ws);
      ListedRest(list);
      ScanEachAdds(ScanOne(t, list[0], ws), list[1..], ws);
    }
  }

  /** Windows that are active in both tables have the same id. */
  lemma FewerIds(t: WinTable, r: WinTable)
    requires |t.wins| == |r.wins| == MAX_WIN
    requires forall i :: 0 <= i < MAX_WIN && r.wins[i].active ==> t.wins[i].active && t.wins[i].id == r.wins[i].id
    ensures Ids(r) <= Ids(t)
  {
  }

  lemma ScanAdds(t: WinTable, list: seq<SurfaceInfo>, ws: int)
    requires t.Valid()
    ensures Ids(Scan(t, Some(list), ws)) <= Ids(t) + Listed(list)
  {
    hide ScanEach, Ids, Listed, WinTable.Valid;
    Slots(t);
    UnseenValid(t);
    UnseenIds(t);
    ScanEachAdds(Unseen(t), list, ws);
    FewerIds(ScanEach(Unseen(t), list, ws), Scan(t, Some(list), ws));
  }

  /** The ids a step may add. */
  function Adds(e: WinEvent): set<nat> {
    if e.Scanned? && e.list.Some? then Listed(e.list.value) else {}
  }

  lemma StepAdds(t: WinTable, e: WinEvent)
    requires t.Valid()
    ensures Ids(Step(t, e)) <= Ids(t) + Adds(e)
  {
    hide Ids, Listed, Scan;
    if e.Scanned? && e.list.Some? {
      ScanAdds(t, e.list.value, e.ws);
    } else if e.Scanned? {
      assert Step(t, e) == t by {
        FailedScan(t, e.ws);
      }
    } else {
      FewerIds(t, Step(t, e));
    }
  }

  lemma FailedScan(t: WinTable, ws: int)
    requires |t.wins| == MAX_WIN
    ensures Scan(t, None, ws) == t
  {
  }

  /** Windows only ever have ids that were listed. */
  lemma {:induction false} RunAdds(t: WinTable, es: seq<WinEvent>, all: set<nat>)
    requires t.Valid() && Ids(t) <= all && forall i :: 0 <= i < |es| ==> Adds(es[i]) <= all
    ensures Run(t, es).Valid() && Ids(Run(t, es)) <= all
    decreases |es|
  {
    hide Ids, Adds, Step, WinTable.Valid;
    RunValid(t, es);
    Slots(t);
    if es != [] {
      StepAdds(t, es[0]);
      StepValid(t, es[0]);
      RunAdds(Step(t, es[0]), es[1..], all);
    }
  }

  /** The ids of a table with `n` slots. */
  function Below(n: nat): (ids: set<nat>)
    ensures |ids| == n && forall i: nat :: i in ids <==> i < n
  {
    if n == 0 then {} else Below(n - 1) + {n - 1}
  }

  lemma NoIdsYet()
    ensures Ids(NoWindows()) == {}
  {
  }

  /** While the kernel lists only slot numbers below 8, every listed id has a window after every run. */
  lemma SmallIdsServed(es: seq<WinEvent>, list: seq<SurfaceInfo>, ws: int)
    requires forall i :: 0 <= i < |es| ==> Adds(es[i]) <= Below(8)
    requires Listed(list) <= Below(8)
    ensures AllServed(Scan(Run(NoWindows(), es), Some(list), ws), list)
  {
    hide Ids, Listed, Adds, Run, Scan, AllServed, Below;
    var t := Run(NoWindows(), es);
    NoIdsYet();
    RunAdds(NoWindows(), es, Below(8));
    SubsetSize(Ids(t) + Listed(list), Below(8));
    ScanServesIff(t, list, ws);
  }

  // ----- a window of one's own -----

  /** A window for each listed surface, no two surfaces the same. */
  ghost predicate Own(t: WinTable, list: seq<SurfaceInfo>, f: seq<nat>)
    requires |t.wins| == MAX_WIN
  {
    && |f| == |list|
    && (forall k :: 0 <= k < |f| ==> f[k] < MAX_WIN && t.wins[f[k]].active && t.wins[f[k]].id == list[k].id)
    && forall i, k :: 0 <= i < k < |f| ==> f[i] != f[k]
  }

  ghost predicate Distinct(list: seq<SurfaceInfo>) {
    forall i, k :: 0 <= i < k < |list| ==> list[i].id != list[k].id
  }

  /** The listed surfaces have windows of their own exactly when all their ids have one and no two ids agree. */
  lemma OwnIff(t: WinTable, list: seq<SurfaceInfo>)
    requires t.Valid()
    ensures (exists f :: Own(t, list, f)) <==> Listed(list) <= Ids(t) && Distinct(list)
  {
    if exists f :: Own(t, list, f) {
      var f :| Own(t, list, f);
      OwnDistinct(t, list, f);
    }
    if Listed(list) <= Ids(t) && Distinct(list) {
      var f := Owner(t, list);
    }
  }

  lemma OwnDistinct(t: WinTable, list: seq<SurfaceInfo>, f: seq<nat>)
    requires t.Valid() && Own(t, list, f)
    ensures Listed(list) <= Ids(t) && Distinct(list)
  {
    forall i, k | 0 <= i < k < |list|
      ensures list[i].id != list[k].id
    {
      OnlyOne(t, f[i], f[k]);
    }
  }

  lemma {:induction false} Owner(t: WinTable, list: seq<SurfaceInfo>) returns (f: seq<nat>)
    requires t.Valid() && Listed(list) <= Ids(t) && Distinct(list)
    ensures Own(t, list, f)
    decreases |list|
  {
    if list == [] {
      return [];
    }
    var n := |list| - 1;
    assert list[n].id in Listed(list) && Listed(list[..n]) <= Listed(list);
    var rest := Owner(t, list[..n]);
    var i :| 0 <= i < |t.wins| && t.wins[i].active && t.wins[i].id == list[n].id;
    f := rest + [i];
  }

  /** A close takes away exactly the id of the window. */
  lemma CloseIds(t: WinTable, i: nat)
    requires t.Valid() && i < MAX_WIN && t.wins[i].active
    ensures Ids(Close(t, i)) == Ids(t) - {t.wins[i].id}
  {
    var r := Close(t, i);
    forall id | id in Ids(r)
      ensures id in Ids(t) && id != t.wins[i].id
    {
      var k :| 0 <= k < MAX_WIN && r.wins[k].active && r.wins[k].id == id;
      OnlyOne(t, i, k);
    }
    forall id | id in Ids(t) && id != t.wins[i].id
      ensures id in Ids(r)
    {
      var k :| 0 <= k < MAX_WIN && t.wins[k].active && t.wins[k].id == id;
      assert r.wins[k] == t.wins[k];
    }
  }
}
