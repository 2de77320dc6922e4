/** Runs of the Coverage class which show that the exceptions its contracts speak of do happen: one block,
    not mapped at first, gets a dynamic breakpoint when its page table is written. */
module CoverageFaults {
  import opened Addresses
  import opened Collections
  import opened HapRanges
  import opened BlockBreaks
  import opened BreakTable
  import opened MissingBlocks
  import opened CoverageState
  import opened CoverageRuns
  import C = Coverage
  import EdgeMap

  const BLOCK: Addr := 100
  const TABLE: Place := Table(7)
  const WALK: map<Addr, int> := map[BLOCK := 4096]
  const MAP_PAGE: Event := TableStore(7, true, 1, WALK)

  /** The block waits for its page table, its location in the edge map is 0, and nothing has happened yet. */
  ghost predicate Ready(p: Setup, v: View) {
    && p.jumpers == {} && p.dead == {} && p.offset == 0 && p.aflMap == map[BLOCK := 0]
    && TABLE in p.missing && p.missing[TABLE] == [BLOCK]
    && InOrderAt(v) && Covered(v.table) && !v.halted && v.reEnable == []
    && v.table.alone == [] && v.table.bpList == [] && v.table.didMissing == [] && v.table.didMissingHap == []
  }

  // ---- Such an object ----

  lemma OneBlock(m: Missing, aflMap: map<Addr, nat>, unmapped: seq<Addr>)
    requires aflMap == Located(map[], [BLOCK], [0]) && unmapped == Left([BLOCK], {}, {})
    requires Filed(WithoutTables(map[]), m, unmapped, map[BLOCK := TABLE])
    ensures aflMap == map[BLOCK := 0] && TABLE in m && m[TABLE] == [BLOCK] && Wanted([BLOCK], {}, {}) == []
  {
    assert [BLOCK][..0] == [] && [0][..0] == [];
    assert ListAt(m, TABLE) == ListAt(WithoutTables(map[]), TABLE) + Under(unmapped, map[BLOCK := TABLE], TABLE);
    assert unmapped == [BLOCK];
    UnderNext([], BLOCK, map[BLOCK := TABLE], TABLE);
    assert [] + [BLOCK] == [BLOCK];
    assert Under([BLOCK], map[BLOCK := TABLE], TABLE) == [BLOCK];
  }

  method OneUnmapped() returns (c: C.Coverage)
    ensures fresh(c) && fresh(c.traceBits) && c.Valid() && c.Map() == None && Ready(c.Parts(), c.Now())
  {
    hide Conserved, Covered, Filed, Located, Left, Wanted, Sound, BitsCount, InOrderAt;
    c := new C.Coverage({}, {}, 0, 1);
    c.SetBlockBreaks([BLOCK], [0], {}, map[BLOCK := TABLE]);
    OneBlock(c.missing, c.aflMap, c.unmapped);
    c.NowInOrder();
  }

  // ---- The page of the block is mapped ----

  lemma OnlyBlock(walk: map<Addr, int>)
    requires BLOCK in walk
    ensures [] + Newly([BLOCK], [], Eligible(walk, {}, 0, false)) == [BLOCK]
  {
    assert [BLOCK][..0] == [];
    assert [] + [BLOCK] == [BLOCK];
  }

  /** The block has got its dynamic breakpoint. */
  ghost predicate Dynamic(t: Breaks, bp: nat) {
    t.bpList == t.didMissingBreak == [bp] && bp in t.addrMap && t.addrMap[bp] == BLOCK && t.origBpList == []
  }

  lemma PageMapped(p: Setup, v: View, s: Seen, w: View) returns (bp: nat)
    requires Ready(p, v) && InOrderAt(w) && Handled(p, v, MAP_PAGE, s, w)
    ensures Dynamic(w.table, bp) && w.table.didMissingHap == [] && Covered(w.table)
    ensures w.reEnable == [] && w.edges == v.edges && !w.halted
  {
    hide Newly, Eligible, Covered, LiveAsListed, NumbersKept, AddrsKept, Spans;
    OnlyBlock(WALK);
    assert w.table.didMissing == [BLOCK];
    assert v.table.origBpList == [];
    bp := w.table.didMissingBreak[0];
  }

  /** Its callback is still waiting to be registered. */
  lemma CallWaits(t: Breaks, bp: nat)
    requires Covered(t) && Dynamic(t, bp) && t.didMissingHap == []
    ensures t.alone != []
  {
    assert RangesAt(t.sim.haps, []) == [];
    SpansOfNone();
  }

  // ---- A reset while the call waits ----

  const LATE_CALL: seq<Event> := [MAP_PAGE, StartOver, FirstAlone]

  lemma NothingLeft(t: Breaks, bp: nat, u: Breaks)
    requires Conserved(t) && Dynamic(t, bp) && Restored(t, u) && Conserved(u)
    ensures u.sim.live == {} && u.bpList == []
  {
    hide Spans;
    assert ToSet(u.origBpList) == {};
  }

  lemma CallRegistered(t: Breaks, u: Breaks)
    requires Conserved(t) && t.alone != [] && t.alone[0] != [] && u == RunFirst(t)
    ensures Registered(u, t.alone[0][0])
  {
    hide Spans, LiveAsListed, OneEach, Appended;
    var n := |t.bbHap|;
    assert u.bbHap[n] == t.sim.nextHap && RangeAt(u.sim.haps, u.bbHap[n]) == RangeOf(t.alone[0]);
    assert IsRun(t.alone[0]);
  }

  /** Whoever maps the page and resets before the call is made gets a callback on a breakpoint that does
      not exist: in every run the callbacks are out of step from then on. */
  lemma ResetLeavesCallback(p: Setup, seen: seq<Seen>, views: seq<View>) returns (bp: nat)
    requires History(p, LATE_CALL, seen, views) && |seen| == 3 && Ready(p, views[0])
    ensures !Covered(views[3].table) && views[3].table.sim.live == {} && Registered(views[3].table, bp)
  {
    hide Covered, Handled, InOrderAt;
    var dynamic := PageMapped(p, views[0], seen[0], views[1]);
    CallWaits(views[1].table, dynamic);
    bp := CallAfterReset(p, dynamic, views[1], seen[1], views[2], seen[2], views[3]);
  }

  lemma CallAfterReset(p: Setup, dynamic: nat, v: View, s: Seen, u: View, r: Seen, w: View) returns (bp: nat)
    requires Dynamic(v.table, dynamic) && v.table.alone != [] && InOrderAt(v) && InOrderAt(u)
    requires Handled(p, v, StartOver, s, u) && Handled(p, u, FirstAlone, r, w)
    ensures !Covered(w.table) && w.table.sim.live == {} && Registered(w.table, bp)
  {
    hide Covered, Conserved, Registered;
    NothingLeft(v.table, dynamic, u.table);
    CallRegistered(u.table, w.table);
    bp := u.table.alone[0][0];
  }

  // ---- A reset after the breakpoint has saturated ----

  /** The page is mapped during an iteration and the callback registered. */
  const OPENING: seq<Event> := [Iterate, MAP_PAGE, FirstAlone]

  /** The block is hit until its edge is full, a reset follows, and AFL begins another iteration. */
  function Closing(bp: nat): (events: seq<Event>)
    ensures |events| == 258
    ensures forall k :: 0 <= k < 256 ==> events[k] == Break(bp)
    ensures events[256] == StartOver && events[257] == Iterate
  {
    seq(256, _ => Break(bp)) + [StartOver, Iterate]
  }

  /** The block after n hits, all on the edge 0. */
  function Hits(n: nat): EdgeMap.Reference {
    EdgeMap.Reference(0, if n > 255 then {BLOCK} else {}, seq(n, _ => 0))
  }

  lemma OneMoreHit(p: Setup, n: nat)
    requires n <= 255 && p.aflMap == map[BLOCK := 0] && p.jumpers == {}
    ensures EdgeMap.Hit(p.aflMap, Hits(n), BLOCK) == Hits(n + 1)
    ensures Fills(p, Hits(n), BLOCK) <==> n == 255
  {
    Zeros(n);
    assert EdgeMap.Xor(0, 0) == 0;
    assert seq(n, _ => 0) + [0] == seq(n + 1, _ => 0);
  }

  lemma {:induction false} Zeros(n: nat)
    ensures multiset(seq(n, _ => 0))[0] == n
  {
    if n > 0 {
      Zeros(n - 1);
      assert seq(n, _ => 0) == seq(n - 1, _ => 0) + [0];
    }
  }

  /** The callback of the dynamic breakpoint is registered, and has come n times since the iteration began. */
  ghost predicate AfterHits(v: View, bp: nat, n: nat) {
    && Dynamic(v.table, bp) && v.table.bbHap != [] && !v.halted && v.edges == Some(Hits(n))
    && v.reEnable == if n == 256 then [bp] else []
  }

  lemma OpenedUp(p: Setup, more: seq<Event>, seen: seq<Seen>, views: seq<View>) returns (dynamic: nat)
    requires History(p, OPENING + more, seen, views) && |seen| >= 3 && Ready(p, views[0])
    ensures AfterHits(views[3], dynamic, 0)
  {
    hide Covered, Handled, InOrderAt, Dynamic;
    var events := OPENING + more;
    assert events[0] == Iterate && events[1] == MAP_PAGE && events[2] == FirstAlone;
    StillReady(p, views[0], seen[0], views[1]);
    dynamic := PageMapped(p, views[1], seen[1], views[2]);
    CallWaits(views[2].table, dynamic);
    CallMade(p, dynamic, views[2], seen[2], views[3]);
  }

  lemma StillReady(p: Setup, v: View, s: Seen, w: View)
    requires Ready(p, v) && InOrderAt(w) && Handled(p, v, Iterate, s, w)
    ensures Ready(p, w) && w.edges == Some(Hits(0))
  {
    hide Conserved, Covered;
    assert seq(0, _ => 0) == [];
  }

  lemma CallMade(p: Setup, dynamic: nat, v: View, s: Seen, w: View)
    requires Dynamic(v.table, dynamic) && v.table.alone != [] && Handled(p, v, FirstAlone, s, w)
    requires v.edges == Some(Hits(0)) && !v.halted && v.reEnable == []
    ensures AfterHits(w, dynamic, 0)
  {
    hide Covered, Hits;
  }

  lemma HitAgain(p: Setup, bp: nat, n: nat, v: View, s: Seen, w: View)
    requires n < 256 && AfterHits(v, bp, n) && Handled(p, v, Break(bp), s, w)
    requires p.aflMap == map[BLOCK := 0] && p.jumpers == {}
    ensures AfterHits(w, bp, n + 1)
  {
    hide Covered, Hits, Fills, EdgeMap.Hit;
    OneMoreHit(p, n);
  }

  lemma {:induction false} HitOften(p: Setup, bp: nat, seen: seq<Seen>, views: seq<View>, n: nat)
    requires History(p, OPENING + Closing(bp), seen, views) && n <= 256 && 3 + n <= |seen| && AfterHits(views[3], bp, 0)
    requires p.aflMap == map[BLOCK := 0] && p.jumpers == {}
    ensures AfterHits(views[3 + n], bp, n)
  {
    hide Handled, InOrderAt, AfterHits, Raises;
    if n > 0 {
      HitOften(p, bp, seen, views, n - 1);
      assert (OPENING + Closing(bp))[2 + n] == Break(bp);
      HitAgain(p, bp, n - 1, views[2 + n], seen[2 + n], views[3 + n]);
    }
  }

  /** A dynamic breakpoint that has saturated is deleted by a reset, and the next iteration asks for it:
      no run gets beyond that iteration, and one that has got there raises. */
  lemma ResetStrandsBreakpoint(p: Setup, bp: nat, seen: seq<Seen>, views: seq<View>)
    requires History(p, OPENING + Closing(bp), seen, views) && Ready(p, views[0])
    requires |seen| >= 3 ==> bp in views[3].table.didMissingBreak
    ensures |seen| <= 260 && (|seen| == 260 ==> Raises(views[260], Iterate))
  {
    hide Handled, InOrderAt, Covered, AfterHits, Raises;
    if |seen| >= 260 {
      var dynamic := OpenedUp(p, Closing(bp), seen, views);
      SameDynamic(views[3], dynamic, bp);
      HitOften(p, bp, seen, views, 256);
      assert (OPENING + Closing(bp))[259] == StartOver && (OPENING + Closing(bp))[260] == Iterate;
      GoneThen(p, bp, views[259], seen[259], views[260]);
    }
  }

  lemma SameDynamic(v: View, dynamic: nat, bp: nat)
    requires AfterHits(v, dynamic, 0) && bp in v.table.didMissingBreak
    ensures bp == dynamic
  {
  }

  lemma GoneThen(p: Setup, bp: nat, v: View, s: Seen, w: View)
    requires AfterHits(v, bp, 256) && InOrderAt(v) && InOrderAt(w) && Handled(p, v, StartOver, s, w)
    ensures Raises(w, Iterate)
  {
    hide Conserved, Covered;
    NothingLeft(v.table, bp, w.table);
    assert bp in ToSet(w.reEnable);
  }

  // ---- A new analysis while a dynamic breakpoint is listed ----

  /** The lists no longer agree, whatever the new analysis is. */
  lemma NewAnalysisKeepsDynamic(p: Setup, seen: seq<Seen>, views: seq<View>, t: Breaks, addrs: seq<Addr>)
    requires History(p, [MAP_PAGE], seen, views) && |seen| == 1 && Ready(p, views[0])
    requires BlocksSet(Stopped(views[1].table), t, addrs)
    ensures !Conserved(t)
  {
    hide Covered, Handled, BlocksSet, Stopped, Conserved;
    var dynamic := PageMapped(p, views[0], seen[0], views[1]);
    InOrder(views[1].table, t, addrs);
    DynamicListed(views[1], dynamic);
  }

  lemma DynamicListed(v: View, dynamic: nat)
    requires InOrderAt(v) && Dynamic(v.table, dynamic)
    ensures v.table.didMissing != []
  {
  }

  // ---- Such runs exist ----

  method NewAnalysis() returns (c: C.Coverage, seen: seq<Seen>, ghost p: Setup, ghost views: seq<View>)
    ensures fresh(c) && History(p, [MAP_PAGE], seen, views) && |seen| == 1 && Ready(p, views[0])
    ensures BlocksSet(Stopped(views[1].table), c.table, []) && !Conserved(c.table)
  {
    hide Conserved, Sound, Covered, Handled, InOrderAt, HitsOver, InStep, StopsAt, Stranded, HitsMatch, BitsCount,
      MissingKnown, ReplayOf, SameOriginal, EdgeMap.Bitmap, EdgeMap.NonZero, EdgeMap.Replay, BlocksSet, Stopped,
      Filed, Located, Left;
    c := OneUnmapped();
    p := c.Parts();
    assert c.Map() == ReplayOf(c.aflMap, None) by { NoneYet(c.aflMap); }
    var done;
    done, seen, views := c.Run([MAP_PAGE], None);
    c.SetBlockBreaks([], [], {}, map[]);
    NewAnalysisKeepsDynamic(p, seen, views, c.table, []);
  }

  method LateCallback() returns (c: C.Coverage, seen: seq<Seen>, ghost views: seq<View>)
    ensures fresh(c) && History(c.Parts(), LATE_CALL, seen, views) && |seen| == 3 && Ready(c.Parts(), views[0])
    ensures c.Valid() && views[3] == c.Now() && !Covered(c.table)
  {
    hide Conserved, Sound, Covered, Handled, InOrderAt, HitsOver, InStep, StopsAt, Stranded, HitsMatch, BitsCount,
      MissingKnown, ReplayOf, SameOriginal, EdgeMap.Bitmap, EdgeMap.NonZero, EdgeMap.Replay;
    c := OneUnmapped();
    assert c.Map() == ReplayOf(c.aflMap, None) by { NoneYet(c.aflMap); }
    var done;
    done, seen, views := c.Run(LATE_CALL, None);
    if done < |LATE_CALL| {
      OnlyIterateStops(c.Parts(), views[done], LATE_CALL[done], c.Now());
      NoneIterates(done);
    }
    ThreeEvents();
    ghost var bp := ResetLeavesCallback(c.Parts(), seen, views);
  }

  method StrandedBreakpoint() returns (c: C.Coverage, bp: nat, ghost seen: seq<Seen>, ghost views: seq<View>)
    ensures fresh(c) && History(c.Parts(), OPENING + Closing(bp), seen, views) && Ready(c.Parts(), views[0])
    ensures |seen| == 260 && StopsAt(c.Parts(), views[260], Iterate, c.Now())
  {
    hide Conserved, Sound, Covered, Handled, InOrderAt, HitsOver, InStep, StopsAt, Stranded, HitsMatch,
      BitsCount, MissingKnown, ReplayOf, SameOriginal, EdgeMap.Bitmap, EdgeMap.NonZero, EdgeMap.Replay, Closing;
    c := OneUnmapped();
    assert c.Map() == ReplayOf(c.aflMap, None) by { NoneYet(c.aflMap); }
    var done, early;
    done, early, views := c.Run(OPENING, None);
    assert OPENING + [] == OPENING;
    ghost var dynamic := OpenedUp(c.Parts(), [], early, views);
    bp := c.table.bpList[0];
    var late;
    ghost var more;
    done, late, more := c.Run(Closing(bp), HitsOver(None, OPENING, early));
    HistoriesJoin(c.Parts(), OPENING, early, views, Closing(bp), late, more);
    seen, views := early + late, views + more[1..];
    ResetStrandsBreakpoint(c.Parts(), bp, seen, views);
    OnlyIterateStops(c.Parts(), more[done], Closing(bp)[done], c.Now());
  }

  lemma NoneYet(aflMap: map<Addr, nat>)
    ensures ReplayOf(aflMap, None) == None
  {
  }

  lemma OnlyIterateStops(p: Setup, v: View, e: Event, w: View)
    requires StopsAt(p, v, e, w)
    ensures e.Iterate?
  {
  }

  lemma NoneIterates(k: nat)
    requires k < |LATE_CALL|
    ensures !LATE_CALL[k].Iterate?
  {
  }

  lemma ThreeEvents()
    ensures |LATE_CALL| == 3
  {
  }
}
