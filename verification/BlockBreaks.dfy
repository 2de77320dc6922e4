/** How setBlockBreaks of coverage.py builds the original breakpoints: one on each mapped block that is
    not a dead spot, and callbacks on the runs of consecutive numbers. */
module BlockBreaks {
  import opened Addresses
  import opened Collections
  import opened HapRanges
  import opened BreakTable

  /** stopCover: all breakpoints of the list are deleted, and all callbacks. */
  function Stopped(t: Breaks): Breaks {
    t.(sim := t.sim.DeleteBreaks(t.bpList).DeleteHaps(t.bbHap), bpList := [], bbHap := [])
  }

  /** setBreak for a mapped block: a fresh breakpoint, remembered with its block. */
  function OnBlock(t: Breaks, bb: Addr, skipped: nat): Breaks {
    var bp := t.sim.nextBreak + skipped;
    t.(sim := t.sim.NewBreak(skipped), addrMap := t.addrMap[bp := bb], bpList := t.bpList + [bp])
  }

  /** doHapRange */
  function OnRange(t: Breaks, run: seq<nat>): Breaks
    requires run != []
  {
    t.(sim := t.sim.AddHap(RangeOf(run)), bbHap := t.bbHap + [t.sim.nextHap])
  }

  /** While the loop runs: every run but the last has its callback. */
  ghost predicate Building(t: Breaks, open: seq<nat>) {
    && t.sim.Valid() && Increasing(t.bpList)
    && ToSet(t.bpList) <= t.sim.live && ToSet(t.bbHap) <= t.sim.haps.Keys
    && Tracks(t.bpList, RangesAt(t.sim.haps, t.bbHap), open)
  }

  lemma StoppedIsBuilding(t: Breaks)
    requires t.sim.Valid()
    ensures Building(Stopped(t), [])
  {
    assert RangesAt(Stopped(t).sim.haps, []) == [];
  }

  /** A callback that has just been added does not change where the others are. */
  lemma RangesWithNew(sim: Simulator, ids: seq<nat>, r: Range)
    requires sim.Valid() && ToSet(ids) <= sim.haps.Keys
    ensures RangesAt(sim.AddHap(r).haps, ids + [sim.nextHap]) == RangesAt(sim.haps, ids) + [r]
  {
    var after := sim.AddHap(r).haps;
    forall i | 0 <= i < |ids| ensures RangeAt(after, ids[i]) == RangeAt(sim.haps, ids[i]) {
      assert ids[i] in ToSet(ids);
    }
  }

  /** One turn of the loop. */
  function Turn(t: Breaks, open: seq<nat>, bb: Addr, skipped: nat): (Breaks, seq<nat>) {
    var bp := t.sim.nextBreak + skipped;
    if open != [] && bp != open[|open| - 1] + 1 then (OnRange(OnBlock(t, bb, skipped), open), [bp])
    else (OnBlock(t, bb, skipped), open + [bp])
  }

  lemma TurnBuilds(t: Breaks, open: seq<nat>, bb: Addr, skipped: nat)
    requires Building(t, open)
    ensures Building(Turn(t, open, bb, skipped).0, Turn(t, open, bb, skipped).1)
  {
    hide Tracks, RangesAt;
    var bp := t.sim.nextBreak + skipped;
    forall i | 0 <= i < |t.bpList| ensures t.bpList[i] < bp {
      assert t.bpList[i] in ToSet(t.bpList);
    }
    TracksNext(t.bpList, RangesAt(t.sim.haps, t.bbHap), open, bp);
    if open != [] {
      RangesWithNew(t.sim, t.bbHap, RangeOf(open));
    }
  }

  /** After the loop the open run gets its callback too. */
  function Finished(t: Breaks, open: seq<nat>): Breaks {
    if open == [] then t else OnRange(t, open)
  }

  /** The state that resetCoverage will go back to. */
  function Recorded(t: Breaks): Breaks {
    t.(origBpList := t.bpList, origBbHap := t.bbHap, origLive := t.sim.live, origHaps := t.sim.haps)
  }

  /** Callbacks on exactly the runs. */
  ghost predicate Grouped(t: Breaks) {
    && t.sim.Valid() && Increasing(t.bpList)
    && ToSet(t.bpList) <= t.sim.live && ToSet(t.bbHap) <= t.sim.haps.Keys
    && RangesAt(t.sim.haps, t.bbHap) == RangesOf(Runs(t.bpList))
  }

  lemma FinishedIsGrouped(t: Breaks, open: seq<nat>)
    requires Building(t, open)
    ensures Grouped(Finished(t, open))
  {
    hide Runs, RangesAt;
    TracksLast(t.bpList, RangesAt(t.sim.haps, t.bbHap), open);
    if open != [] {
      RangesWithNew(t.sim, t.bbHap, RangeOf(open));
    }
  }

  lemma GroupedSpans(t: Breaks)
    requires Grouped(t)
    ensures Spans(RangesAt(t.sim.haps, t.bbHap)) == t.bpList
  {
    hide Runs, RangesAt, Spans;
    RunsSeparated(t.bpList);
    SpansOfRuns(Runs(t.bpList));
    RunsKeepAll(t.bpList);
  }

  /** stopCover leaves the lists of dynamic breakpoints alone, so the table is in order after
      setBlockBreaks exactly if there were none. */
  lemma RecordedConserves(t: Breaks)
    requires Grouped(t) && t.sim.live == ToSet(t.bpList) && t.sim.haps.Keys == ToSet(t.bbHap)
    requires |t.didMissing| == |t.didMissingBreak| && forall i :: 0 <= i < |t.alone| ==> IsRun(t.alone[i])
    ensures Conserved(Recorded(t)) <==> t.didMissing == [] && t.didMissingHap == []
    ensures Conserved(Recorded(t)) ==> (Covered(Recorded(t)) <==> t.alone == [])
  {
    hide Runs, RangesOf, RangesAt, Spans;
    GroupedSpans(t);
    var u := Recorded(t);
    if t.didMissing == [] && t.didMissingHap == [] {
      assert ToSet<nat>([]) == {};
      SpansOfNoHaps(u.sim.haps);
      if t.alone != [] {
        ConcatFirst(t.alone);
      }
    } else if Conserved(u) {
      assert |u.bpList| == |t.bpList| + |t.didMissingBreak|;
    }
  }

  lemma SpansOfNoHaps(haps: map<nat, Range>)
    ensures Spans(RangesAt(haps, [])) == []
  {
  }

  // ---- Which blocks get a breakpoint ----

  /** The blocks that are mapped and not dead spots, each once, in the order of the analysis. */
  function Wanted(blocks: seq<Addr>, mapped: set<Addr>, dead: set<int>): seq<Addr> {
    if blocks == [] then []
    else
      var before, bb := Wanted(blocks[..|blocks| - 1], mapped, dead), blocks[|blocks| - 1];
      if bb in mapped && bb !in dead && bb !in before then before + [bb] else before
  }

  lemma {:induction false} WantedExact(blocks: seq<Addr>, mapped: set<Addr>, dead: set<int>)
    ensures Distinct(Wanted(blocks, mapped, dead))
    ensures forall bb :: bb in Wanted(blocks, mapped, dead) <==> bb in blocks && bb in mapped && bb !in dead
  {
    if blocks != [] {
      var most, bb := blocks[..|blocks| - 1], blocks[|blocks| - 1];
      WantedExact(most, mapped, dead);
      assert blocks == most + [bb];
    }
  }

  /** The first block is listed before the second is for the first time. */
  predicate ListedBefore(blocks: seq<Addr>, a: Addr, b: Addr) {
    exists k :: 0 <= k < |blocks| && blocks[k] == a && b !in blocks[..k + 1]
  }

  /** Their order is that in which the analysis first lists them. */
  lemma {:induction false} WantedInOrder(blocks: seq<Addr>, mapped: set<Addr>, dead: set<int>, i: nat, j: nat)
    requires i < j < |Wanted(blocks, mapped, dead)|
    ensures ListedBefore(blocks, Wanted(blocks, mapped, dead)[i], Wanted(blocks, mapped, dead)[j])
  {
    var n := |blocks| - 1;
    var most, w := Wanted(blocks[..n], mapped, dead), Wanted(blocks, mapped, dead);
    if j < |most| {
      WantedInOrder(blocks[..n], mapped, dead, i, j);
      var k :| 0 <= k < n && blocks[..n][k] == most[i] && most[j] !in blocks[..n][..k + 1];
      assert blocks[..n][..k + 1] == blocks[..k + 1];
    } else {
      WantedExact(blocks[..n], mapped, dead);
      assert most[i] in most;
      var k :| 0 <= k < n && blocks[..n][k] == most[i];
      assert w[j] !in blocks[..n];
      forall x | x in blocks[..k + 1] ensures x in blocks[..n] {}
    }
  }

  /** The blocks left for later, one entry for each time the analysis lists them. */
  function Left(blocks: seq<Addr>, mapped: set<Addr>, dead: set<int>): seq<Addr> {
    if blocks == [] then []
    else
      var before, bb := Left(blocks[..|blocks| - 1], mapped, dead), blocks[|blocks| - 1];
      if bb in mapped || bb in dead then before else before + [bb]
  }

  /** The breakpoints sit on these blocks, in this order. */
  ghost predicate Marks(t: Breaks, addrs: seq<Addr>) {
    |addrs| == |t.bpList| && forall i :: 0 <= i < |addrs| ==>
      t.bpList[i] in t.addrMap && t.addrMap[t.bpList[i]] == addrs[i]
  }

  lemma TurnMarks(t: Breaks, open: seq<nat>, bb: Addr, skipped: nat, addrs: seq<Addr>)
    requires Building(t, open) && Marks(t, addrs)
    ensures Marks(Turn(t, open, bb, skipped).0, addrs + [bb])
  {
    hide Tracks, RangesAt;
    forall i | 0 <= i < |t.bpList| ensures t.bpList[i] < t.sim.nextBreak {
      assert t.bpList[i] in ToSet(t.bpList);
    }
  }

  /** The blocks of a list that a page-table update makes reachable: those the walk now resolves, that are
      not dead spots, and that have no dynamic breakpoint yet. */
  function Newly(list: seq<Addr>, done: seq<Addr>, eligible: set<Addr>): seq<Addr> {
    if list == [] then []
    else
      var before, bb := Newly(list[..|list| - 1], done, eligible), list[|list| - 1];
      if bb in eligible && bb !in done + before then before + [bb] else before
  }

  lemma {:induction false} NewlyExact(list: seq<Addr>, done: seq<Addr>, eligible: set<Addr>)
    ensures forall bb :: bb in Newly(list, done, eligible) <==> bb in list && bb in eligible && bb !in done
    ensures Distinct(done) ==> Distinct(done + Newly(list, done, eligible))
  {
    if list == [] {
      assert done + [] == done;
    } else {
      var most, bb := list[..|list| - 1], list[|list| - 1];
      NewlyExact(most, done, eligible);
      assert list == most + [bb];
      assert done + (Newly(most, done, eligible) + [bb]) == done + Newly(most, done, eligible) + [bb];
    }
  }

  // ---- Locations in the edge map ----

  /** afl_map after a location has been drawn for each entry. */
  function Located(m: map<Addr, nat>, blocks: seq<Addr>, draws: seq<nat>): map<Addr, nat>
    requires |draws| == |blocks|
  {
    if blocks == [] then m
    else Located(m, blocks[..|blocks| - 1], draws[..|draws| - 1])[blocks[|blocks| - 1] := draws[|draws| - 1]]
  }

  /** Every block of the analysis gets one of the draws; no other block changes its location. */
  lemma {:induction false} LocatedExact(m: map<Addr, nat>, blocks: seq<Addr>, draws: seq<nat>, bound: nat)
    requires |draws| == |blocks| && forall i :: 0 <= i < |draws| ==> draws[i] < bound
    requires forall bb :: bb in m ==> m[bb] < bound
    ensures forall bb :: bb in Located(m, blocks, draws) <==> bb in m || bb in blocks
    ensures forall bb :: bb in Located(m, blocks, draws) ==> Located(m, blocks, draws)[bb] < bound
    ensures forall bb :: bb in m && bb !in blocks ==> Located(m, blocks, draws)[bb] == m[bb]
  {
    if blocks != [] {
      var most, bb := blocks[..|blocks| - 1], blocks[|blocks| - 1];
      LocatedExact(m, most, draws[..|draws| - 1], bound);
      assert blocks == most + [bb];
    }
  }

  /** And it is the last one drawn for it. */
  lemma {:induction false} LocatedIsDrawn(m: map<Addr, nat>, blocks: seq<Addr>, draws: seq<nat>, k: nat)
    requires |draws| == |blocks| && k < |blocks| && forall j :: k < j < |blocks| ==> blocks[j] != blocks[k]
    ensures blocks[k] in Located(m, blocks, draws) && Located(m, blocks, draws)[blocks[k]] == draws[k]
  {
    var n := |blocks| - 1;
    if k < n {
      LocatedIsDrawn(m, blocks[..n], draws[..n], k);
    }
  }

  lemma {:induction false} LocatedKeeps(m: map<Addr, nat>, blocks: seq<Addr>, draws: seq<nat>)
    requires |draws| == |blocks|
    ensures forall bb :: bb in m || bb in blocks ==> bb in Located(m, blocks, draws)
  {
    if blocks != [] {
      LocatedKeeps(m, blocks[..|blocks| - 1], draws[..|draws| - 1]);
      assert blocks == blocks[..|blocks| - 1] + [blocks[|blocks| - 1]];
    }
  }

  lemma {:induction false} LeftExact(blocks: seq<Addr>, mapped: set<Addr>, dead: set<int>)
    ensures forall bb :: bb in Left(blocks, mapped, dead) <==> bb in blocks && bb !in mapped && bb !in dead
  {
    if blocks != [] {
      LeftExact(blocks[..|blocks| - 1], mapped, dead);
      assert blocks == blocks[..|blocks| - 1] + [blocks[|blocks| - 1]];
    }
  }

  lemma {:induction false} LeftCounts(blocks: seq<Addr>, mapped: set<Addr>, dead: set<int>, bb: Addr)
    ensures multiset(Left(blocks, mapped, dead))[bb] == if bb in mapped || bb in dead then 0 else multiset(blocks)[bb]
  {
    if blocks != [] {
      var most, last := blocks[..|blocks| - 1], blocks[|blocks| - 1];
      LeftCounts(most, mapped, dead, bb);
      assert blocks == most + [last];
    }
  }

  // ---- The loop of setBlockBreaks over all blocks ----

  /** Since t0, from which stopCover had removed everything, only the breakpoints and callbacks of the two
      lists have been added, all with fresh numbers and enabled. */
  ghost predicate OnlyOriginal(t0: Breaks, t: Breaks) {
    && t.alone == t0.alone && t.didMissing == t0.didMissing
    && t.didMissingBreak == t0.didMissingBreak && t.didMissingHap == t0.didMissingHap
    && t.sim.live == t0.sim.live + ToSet(t.bpList) && t.sim.haps.Keys == t0.sim.haps.Keys + ToSet(t.bbHap)
    && AddrsKept(t0, t) && (forall i :: 0 <= i < |t.bpList| ==> t0.sim.nextBreak <= t.bpList[i])
    && ToSet(t.bpList) <= t.sim.enabled
  }

  lemma LoopStarts(t: Breaks, m: map<Addr, nat>, mapped: set<Addr>, dead: set<int>)
    requires t.bpList == [] && t.bbHap == []
    ensures OnlyOriginal(t, t) && Marks(t, [])
    ensures Wanted([], mapped, dead) == [] && Left([], mapped, dead) == [] && Located(m, [], []) == m
  {
  }

  lemma LoopNext(blocks: seq<Addr>, bb: Addr, draws: seq<nat>, draw: nat, m: map<Addr, nat>, mapped: set<Addr>,
      dead: set<int>)
    requires |draws| == |blocks|
    ensures Located(m, blocks + [bb], draws + [draw]) == Located(m, blocks, draws)[bb := draw]
    ensures Wanted(blocks + [bb], mapped, dead) ==
      if bb in mapped && bb !in dead && bb !in Wanted(blocks, mapped, dead)
      then Wanted(blocks, mapped, dead) + [bb]
      else Wanted(blocks, mapped, dead)
    ensures Left(blocks + [bb], mapped, dead) ==
      if bb in mapped || bb in dead then Left(blocks, mapped, dead) else Left(blocks, mapped, dead) + [bb]
    ensures bb in Wanted(blocks, mapped, dead) ==> bb in mapped
  {
    assert (blocks + [bb])[..|blocks|] == blocks && (draws + [draw])[..|draws|] == draws;
    WantedExact(blocks, mapped, dead);
  }

  lemma TurnIsOriginal(t0: Breaks, t: Breaks, open: seq<nat>, bb: Addr, skipped: nat)
    requires OnlyOriginal(t0, t)
    ensures OnlyOriginal(t0, Turn(t, open, bb, skipped).0)
  {
    hide OnlyOriginal, OnBlock, OnRange;
    BlockIsOriginal(t0, t, bb, skipped);
    if open != [] {
      RangeIsOriginal(t0, OnBlock(t, bb, skipped), open);
    }
  }

  lemma BlockIsOriginal(t0: Breaks, t: Breaks, bb: Addr, skipped: nat)
    requires OnlyOriginal(t0, t)
    ensures OnlyOriginal(t0, OnBlock(t, bb, skipped))
  {
    ToSetAppend(t.bpList, t.sim.nextBreak + skipped);
  }

  lemma RangeIsOriginal(t0: Breaks, t: Breaks, run: seq<nat>)
    requires OnlyOriginal(t0, t) && run != []
    ensures OnlyOriginal(t0, OnRange(t, run))
  {
    ToSetAppend(t.bbHap, t.sim.nextHap);
  }

  /** What the loop leaves: callbacks on all runs, on these blocks, recorded as the original state. */
  ghost predicate BlocksSet(t0: Breaks, t: Breaks, addrs: seq<Addr>) {
    Grouped(t) && Marks(t, addrs) && OnlyOriginal(t0, t) && t == Recorded(t)
  }

  lemma LoopEnds(t0: Breaks, t: Breaks, open: seq<nat>, addrs: seq<Addr>)
    requires Building(t, open) && Marks(t, addrs) && OnlyOriginal(t0, t)
    ensures BlocksSet(t0, Recorded(Finished(t, open)), addrs)
  {
    hide Building, Grouped;
    var u := Finished(t, open);
    if open != [] {
      RangeIsOriginal(t0, t, open);
    }
    FinishedIsGrouped(t, open);
    RecordedIsGrouped(u);
  }

  lemma RecordedIsGrouped(t: Breaks)
    requires Grouped(t)
    ensures Grouped(Recorded(t))
  {
    hide Runs, RangesOf, RangesAt;
  }
}
