/** What the Coverage class keeps true of its fields, stated on their values, and what its events do to them. */
module CoverageState {
  import opened Addresses
  import opened Collections
  import opened HapRanges
  import opened BlockBreaks
  import opened BreakTable
  import opened MissingBlocks
  import EdgeMap

  // ---- Invariants ----

  /** Every breakpoint leads to a block that has a location in the edge map, so a callback's look-ups never miss. */
  ghost predicate Mapped(t: Breaks, aflMap: map<Addr, nat>) {
    forall i :: 0 <= i < |t.bpList| ==> t.bpList[i] in t.addrMap && t.addrMap[t.bpList[i]] in aflMap
  }

  /** A breakpoint is disabled only for a block that has saturated, and then doCoverage will enable it. */
  ghost predicate DisabledAreSaturated(t: Breaks, reEnable: seq<nat>, hit255: seq<Addr>) {
    forall i :: 0 <= i < |t.bpList| && t.bpList[i] !in t.sim.enabled ==>
      t.bpList[i] in reEnable && t.bpList[i] in t.addrMap && t.addrMap[t.bpList[i]] in hit255
  }

  /** What waits to be enabled again are breakpoints that have existed, though not all need to be left. */
  ghost predicate NumbersUsed(t: Breaks, reEnable: seq<nat>) {
    forall bp :: bp in reEnable ==> bp < t.sim.nextBreak
  }

  ghost predicate Sound(t: Breaks, aflMap: map<Addr, nat>, reEnable: seq<nat>, hit255: seq<Addr>) {
    Conserved(t) && EdgeMap.ValidMap(aflMap) && Mapped(t, aflMap) && DisabledAreSaturated(t, reEnable, hit255)
    && NumbersUsed(t, reEnable)
  }

  /** The edge map is the capped count of the accepted edges. */
  ghost predicate BitsCount(bits: seq<nat>, hitCount: nat, log: seq<nat>) {
    bits == EdgeMap.Bitmap(log) && hitCount == EdgeMap.NonZero(EdgeMap.Bitmap(log))
  }

  /** The breakpoints of a list up to the first that has been deleted. */
  function StillThere(bps: seq<nat>, live: set<nat>): (r: seq<nat>)
    ensures ToSet(r) <= live
  {
    if bps == [] || bps[0] !in live then [] else [bps[0]] + StillThere(bps[1..], live)
  }

  lemma {:induction false} StillThereIs(bps: seq<nat>, live: set<nat>, k: nat)
    requires k <= |bps| && ToSet(bps[..k]) <= live && (k < |bps| ==> bps[k] !in live)
    ensures StillThere(bps, live) == bps[..k]
  {
    if k > 0 {
      assert bps[0] in ToSet(bps[..k]);
      assert bps[1..][..k - 1] == bps[..k][1..];
      forall x | x in bps[1..][..k - 1] ensures x in live {
        assert x in ToSet(bps[..k]);
      }
      StillThereIs(bps[1..], live, k - 1);
    }
  }

  lemma {:induction false} StillThereAll(bps: seq<nat>, live: set<nat>)
    ensures StillThere(bps, live) == bps <==> ToSet(bps) <= live
  {
    if bps != [] {
      StillThereAll(bps[1..], live);
      assert bps == [bps[0]] + bps[1..];
      assert ToSet(bps) == {bps[0]} + ToSet(bps[1..]);
    }
  }

  /** The tables differ at most in which breakpoints are enabled. */
  ghost predicate SameBreaks(t: Breaks, u: Breaks) {
    u == t.(sim := t.sim.(enabled := u.sim.enabled))
  }

  lemma LookUp(t: Breaks, aflMap: map<Addr, nat>, reEnable: seq<nat>, hit255: seq<Addr>, bp: nat)
    requires Sound(t, aflMap, reEnable, hit255) && bp in t.bpList
    ensures bp in t.sim.live && bp in t.addrMap && t.addrMap[bp] in aflMap && aflMap[t.addrMap[bp]] < EdgeMap.MAP_SIZE
    ensures bp !in t.sim.enabled ==> t.addrMap[bp] in hit255
  {
    BreaksAreLive(t);
    assert bp in ToSet(t.bpList);
    var i :| 0 <= i < |t.bpList| && t.bpList[i] == bp;
    var bb := t.addrMap[bp];
    assert bb in aflMap && aflMap[bb] < EdgeMap.MAP_SIZE;
  }

  lemma BreakNumber(t: Breaks, aflMap: map<Addr, nat>, reEnable: seq<nat>, hit255: seq<Addr>, bp: nat)
    requires Sound(t, aflMap, reEnable, hit255) && bp in t.bpList
    ensures bp in t.addrMap && bp < t.sim.nextBreak
  {
    LookUp(t, aflMap, reEnable, hit255, bp);
  }

  lemma SoundWhenSaturated(t: Breaks, aflMap: map<Addr, nat>, reEnable: seq<nat>, hit255: seq<Addr>, bp: nat,
      more: seq<Addr>)
    requires Sound(t, aflMap, reEnable, hit255) && bp in t.bpList && bp in t.addrMap && t.addrMap[bp] in more
    ensures Sound(t, aflMap, reEnable, hit255 + more)
    ensures Sound(t.(sim := t.sim.Disable(bp)), aflMap, reEnable + [bp], hit255 + more)
  {
    hide Conserved;
    SaturationConserves(t, bp);
    BreaksBelowNext(t);
  }

  lemma SoundWhenEnabled(t: Breaks, aflMap: map<Addr, nat>, reEnable: seq<nat>, hit255: seq<Addr>)
    requires Sound(t, aflMap, reEnable, hit255) && ToSet(reEnable) <= t.sim.live
    ensures Sound(t.(sim := t.sim.Enable(reEnable)), aflMap, [], [])
    ensures ToSet(t.bpList) <= t.sim.enabled + ToSet(reEnable)
  {
    hide Conserved;
    ReEnablingConserves(t, reEnable);
  }

  lemma SoundWithDynamic(t: Breaks, aflMap: map<Addr, nat>, reEnable: seq<nat>, hit255: seq<Addr>, bb: Addr,
      skipped: nat)
    requires Sound(t, aflMap, reEnable, hit255) && bb in aflMap && bb !in t.didMissing
    ensures Sound(AddDynamic(t, bb, skipped), aflMap, reEnable, hit255)
  {
    hide Conserved;
    AddDynamicConserves(t, bb, skipped);
    BreaksBelowNext(t);
  }

  lemma BreaksBelowNext(t: Breaks)
    requires Conserved(t)
    ensures forall i :: 0 <= i < |t.bpList| ==> t.bpList[i] < t.sim.nextBreak
  {
    BreaksAreLive(t);
  }

  lemma SoundWhenDeferred(t: Breaks, aflMap: map<Addr, nat>, reEnable: seq<nat>, hit255: seq<Addr>, open: nat)
    requires Sound(t, aflMap, reEnable, hit255) && OpenRun(t, open) && open < |t.bpList|
    ensures Sound(Defer(t, open), aflMap, reEnable, hit255)
    ensures OpenRun(Defer(t, open), |t.bpList|)
    ensures CoveredTo(t, open) <==> CoveredTo(Defer(t, open), |t.bpList|)
  {
    DeferKeeps(t, open);
  }

  lemma SoundAfterFirst(t: Breaks, aflMap: map<Addr, nat>, reEnable: seq<nat>, hit255: seq<Addr>)
    requires Sound(t, aflMap, reEnable, hit255) && t.alone != []
    ensures t.alone[0] != [] && Sound(RunFirst(t), aflMap, reEnable, hit255)
    ensures Covered(t) <==> Covered(RunFirst(t))
  {
    hide Covered;
    RunFirstConserves(t);
    RunFirstCovers(t);
  }

  lemma SoundAfterReset(t: Breaks, aflMap: map<Addr, nat>, reEnable: seq<nat>, hit255: seq<Addr>)
    requires Sound(t, aflMap, reEnable, hit255)
    ensures ToSet(t.origBpList) <= t.sim.live - ToSet(t.didMissingBreak)
    ensures Sound(Reset(t), aflMap, reEnable, hit255)
  {
    hide Covered;
    ResetRestores(t);
    forall i | 0 <= i < |t.origBpList|
      ensures t.origBpList[i] in t.addrMap && t.addrMap[t.origBpList[i]] in aflMap
        && t.origBpList[i] in Reset(t).sim.enabled
    {
      assert t.bpList[i] == t.origBpList[i];
      assert t.origBpList[i] in ToSet(t.origBpList);
    }
  }

  /** The breakpoints there were are still there, and those that are new have fresh numbers and are enabled. */
  ghost predicate NumbersKept(t: Breaks, u: Breaks) {
    && t.sim.live <= u.sim.live && u.sim.enabled == t.sim.enabled + (u.sim.live - t.sim.live)
    && (forall bp :: bp in u.sim.live && bp !in t.sim.live ==> t.sim.nextBreak <= bp < u.sim.nextBreak)
  }

  /** A page-table update touches nothing but the dynamic breakpoints and the calls that wait. */
  ghost predicate DynamicOnly(t: Breaks, u: Breaks) {
    u == t.(sim := u.sim, alone := u.alone, bpList := u.bpList, addrMap := u.addrMap, didMissing := u.didMissing,
      didMissingBreak := u.didMissingBreak)
    && u.sim.haps == t.sim.haps && t.alone <= u.alone && AddrsKept(t, u) && NumbersKept(t, u)
  }

  /** One new dynamic breakpoint: a gap in the numbers first hands the open run to addHapAlone. */
  function Added(t: Breaks, open: nat, bb: Addr, skipped: nat): (Breaks, nat)
    requires open <= |t.bpList|
  {
    if open < |t.bpList| && t.sim.nextBreak + skipped != t.bpList[|t.bpList| - 1] + 1
    then (AddDynamic(Defer(t, open), bb, skipped), |t.bpList|)
    else (AddDynamic(t, bb, skipped), open)
  }

  lemma NewIsKept(t: Breaks, bb: Addr, skipped: nat)
    requires t.sim.Valid()
    ensures NumbersKept(t, AddDynamic(t, bb, skipped)) && AddrsKept(t, AddDynamic(t, bb, skipped))
  {
  }

  lemma AddedInOrder(t: Breaks, open: nat, bb: Addr, skipped: nat, aflMap: map<Addr, nat>, reEnable: seq<nat>,
      hit255: seq<Addr>)
    requires Sound(t, aflMap, reEnable, hit255) && OpenRun(t, open) && bb in aflMap && bb !in t.didMissing
    ensures var (u, at) := Added(t, open, bb, skipped);
      Sound(u, aflMap, reEnable, hit255) && OpenRun(u, at) && DynamicOnly(t, u) && at < |u.bpList|
        && (CoveredTo(t, open) <==> CoveredTo(u, at))
  {
    hide Sound, OpenRun, CoveredTo;
    OpenWithin(t, open);
    SoundIsAppended(t, aflMap, reEnable, hit255);
    NewIsKept(t, bb, skipped);
    if open < |t.bpList| && t.sim.nextBreak + skipped != t.bpList[|t.bpList| - 1] + 1 {
      var d := Defer(t, open);
      SoundWhenDeferred(t, aflMap, reEnable, hit255, open);
      SoundWithDynamic(d, aflMap, reEnable, hit255, bb, skipped);
      AddDynamicCovers(d, |t.bpList|, bb, skipped);
    } else {
      SoundWithDynamic(t, aflMap, reEnable, hit255, bb, skipped);
      AddDynamicCovers(t, open, bb, skipped);
    }
  }

  lemma OpenWithin(t: Breaks, open: nat)
    requires OpenRun(t, open)
    ensures open <= |t.bpList|
  {
  }

  lemma SoundIsAppended(t: Breaks, aflMap: map<Addr, nat>, reEnable: seq<nat>, hit255: seq<Addr>)
    requires Sound(t, aflMap, reEnable, hit255)
    ensures Appended(t) && t.sim.Valid() && (Covered(t) <==> CoveredTo(t, |t.bpList|)) && OpenRun(t, |t.bpList|)
  {
    CoveredIsCoveredTo(t);
  }

  lemma NewlyNext(list: seq<Addr>, bb: Addr, done: seq<Addr>, eligible: set<Addr>)
    ensures Newly([], done, eligible) == []
    ensures Newly(list + [bb], done, eligible) ==
      if bb in eligible && bb !in done + Newly(list, done, eligible)
      then Newly(list, done, eligible) + [bb]
      else Newly(list, done, eligible)
  {
    assert (list + [bb])[..|list|] == list;
  }

  /** The blocks that the walk now resolves to a physical address and that are no dead spots. The handlers
      differ in what they look up among the dead spots: the block, or its physical address less the load offset. */
  function Eligible(walk: map<Addr, int>, dead: set<int>, offset: int, adjusted: bool): set<Addr> {
    set bb | bb in walk && (if adjusted then walk[bb] - offset else bb) !in dead
  }

  /** After setBlockBreaks the lists are in order exactly if no dynamic breakpoint or callback was listed before. */
  lemma InOrder(t0: Breaks, t: Breaks, addrs: seq<Addr>)
    requires Conserved(t0) && BlocksSet(Stopped(t0), t, addrs)
    ensures t.sim.live == ToSet(t.bpList)
    ensures Conserved(t) <==> t0.didMissing == [] && t0.didMissingHap == []
    ensures Conserved(t) ==> (Covered(t) <==> t.alone == [])
  {
    hide Grouped, Appended, LiveAsListed, Spans, Covered;
    LiveIsListed(t0);
    assert Stopped(t0).sim.live == {} && Stopped(t0).sim.haps.Keys == {};
    RecordedConserves(t);
  }

  /** The numbers that waited to be enabled are all gone. */
  lemma NoneStillThere(t0: Breaks, t: Breaks, reEnable: seq<nat>)
    requires NumbersUsed(t0, reEnable) && t.sim.live == ToSet(t.bpList)
    requires forall i :: 0 <= i < |t.bpList| ==> t0.sim.nextBreak <= t.bpList[i]
    ensures ToSet(reEnable) <= t.sim.live <==> reEnable == []
  {
    if reEnable != [] {
      assert reEnable[0] in reEnable && reEnable[0] in ToSet(reEnable);
    }
  }

  lemma SoundWhenSet(t0: Breaks, t: Breaks, aflMap: map<Addr, nat>, blocks: seq<Addr>, draws: seq<nat>,
      mapped: set<Addr>, dead: set<int>, reEnable: seq<nat>, hit255: seq<Addr>)
    requires Sound(t0, aflMap, reEnable, hit255) && Conserved(t)
    requires |draws| == |blocks| && forall i :: 0 <= i < |draws| ==> draws[i] < EdgeMap.MAP_SIZE
    requires BlocksSet(Stopped(t0), t, Wanted(blocks, mapped, dead))
    ensures Sound(t, Located(aflMap, blocks, draws), reEnable, hit255)
  {
    hide Conserved, Grouped;
    forall i | 0 <= i < |t.bpList| ensures t.bpList[i] in t.sim.enabled {
      assert t.bpList[i] in ToSet(t.bpList);
    }
    LocatedExact(aflMap, blocks, draws, EdgeMap.MAP_SIZE);
    WantedExact(blocks, mapped, dead);
    var w := Wanted(blocks, mapped, dead);
    forall i | 0 <= i < |w| ensures w[i] in Located(aflMap, blocks, draws) {
      assert w[i] in w;
    }
  }

  /** After setBlockBreaks, all together. */
  lemma AllSet(t0: Breaks, t: Breaks, aflMap: map<Addr, nat>, blocks: seq<Addr>, draws: seq<nat>,
      mapped: set<Addr>, dead: set<int>, reEnable: seq<nat>, hit255: seq<Addr>)
    requires Sound(t0, aflMap, reEnable, hit255)
    requires |draws| == |blocks| && forall i :: 0 <= i < |draws| ==> draws[i] < EdgeMap.MAP_SIZE
    requires BlocksSet(Stopped(t0), t, Wanted(blocks, mapped, dead))
    ensures Conserved(t) <==> t0.didMissing == [] && t0.didMissingHap == []
    ensures ToSet(reEnable) <= t.sim.live <==> reEnable == []
    ensures Conserved(t) ==>
      Sound(t, Located(aflMap, blocks, draws), reEnable, hit255) && (Covered(t) <==> t.alone == [])
  {
    hide Conserved, Covered, Grouped, EdgeMap.ValidMap, Mapped, DisabledAreSaturated;
    InOrder(t0, t, Wanted(blocks, mapped, dead));
    NoneStillThere(t0, t, reEnable);
    if Conserved(t) {
      SoundWhenSet(t0, t, aflMap, blocks, draws, mapped, dead, reEnable, hit255);
    }
  }

  lemma StoppedInOrder(t: Breaks, aflMap: map<Addr, nat>, reEnable: seq<nat>, hit255: seq<Addr>)
    requires Sound(t, aflMap, reEnable, hit255)
    ensures Building(Stopped(t), []) && Stopped(t).bpList == [] && Stopped(t).bbHap == []
  {
    StoppedIsBuilding(t);
  }

  lemma FiledInOrder(m0: Missing, m: Missing, blocks: seq<Addr>, draws: seq<nat>,
      mapped: set<Addr>, dead: set<int>, places: map<Addr, Place>, aflMap: map<Addr, nat>)
    requires |draws| == |blocks| && MissingKnown(m0, aflMap)
    requires Filed(WithoutTables(m0), m, Left(blocks, mapped, dead), places)
    ensures MissingKnown(m, Located(aflMap, blocks, draws))
  {
    hide Filed;
    LocatedKeeps(aflMap, blocks, draws);
    LeftExact(blocks, mapped, dead);
    var after := Located(aflMap, blocks, draws);
    forall p | Watched(p) ensures Known(ListAt(WithoutTables(m0), p), after) {
      assert Known(ListAt(m0, p), aflMap);
    }
    FiledKnown(WithoutTables(m0), m, Left(blocks, mapped, dead), places, after);
  }

  ghost predicate SameOriginal(t: Breaks, u: Breaks) {
    u.origBpList == t.origBpList && u.origBbHap == t.origBbHap && u.origLive == t.origLive && u.origHaps == t.origHaps
  }

  lemma CoveredBySame(t: Breaks, u: Breaks)
    requires SameBreaks(t, u)
    ensures Covered(t) <==> Covered(u)
  {
  }

  /** What a reset restores. */
  ghost predicate Restored(t: Breaks, u: Breaks) {
    && u.bpList == t.origBpList && u.bbHap == t.origBbHap
    && u.didMissing == [] && u.didMissingBreak == [] && u.didMissingHap == []
    && u.sim.live == t.origLive && u.sim.haps == t.origHaps && ToSet(u.bpList) <= u.sim.enabled
    && SameOriginal(t, u)
    && u.alone == t.alone && u.addrMap == t.addrMap && u.sim.nextBreak == t.sim.nextBreak
  }

  lemma RestoredByReset(t: Breaks, aflMap: map<Addr, nat>, reEnable: seq<nat>, hit255: seq<Addr>)
    requires Sound(t, aflMap, reEnable, hit255)
    ensures ToSet(t.origBpList) <= t.sim.live - ToSet(t.didMissingBreak)
    ensures Restored(t, Reset(t)) && (Covered(Reset(t)) <==> t.alone == [])
    ensures ToSet(reEnable) <= t.sim.live ==>
      (ToSet(reEnable) <= Reset(t).sim.live <==> forall bp :: bp in reEnable ==> bp !in t.didMissingBreak)
  {
    hide Covered;
    ResetRestores(t);
    assert Reset(t).sim.live == t.sim.live - ToSet(t.didMissingBreak);
    forall bp ensures bp in ToSet(reEnable) <==> bp in reEnable {}
  }

  /** The blocks behind a list of breakpoints. */
  ghost function BlocksOf(addrMap: map<nat, Addr>, bps: seq<nat>): seq<Addr>
    requires forall i :: 0 <= i < |bps| ==> bps[i] in addrMap
  {
    seq(|bps|, i requires 0 <= i < |bps| => addrMap[bps[i]])
  }

  /** A callback is registered for the breakpoint. */
  predicate Registered(t: Breaks, bp: nat) {
    exists i :: 0 <= i < |t.bbHap| && InRange(bp, RangeAt(t.sim.haps, t.bbHap[i]))
  }

  /** Of the breakpoints executed, those whose callback is registered. */
  function Caught(t: Breaks, executed: seq<nat>): (r: seq<nat>)
    ensures forall i :: 0 <= i < |r| ==> r[i] in executed
  {
    if executed == [] then []
    else
      var n := |executed| - 1;
      Caught(t, executed[..n]) + if Registered(t, executed[n]) then [executed[n]] else []
  }

  lemma SomeCallback(t: Breaks, bp: nat)
    requires Registered(t, bp)
    ensures t.bbHap != []
  {
  }

  lemma {:induction false} SameCaught(t: Breaks, u: Breaks, executed: seq<nat>)
    requires SameBreaks(t, u)
    ensures Caught(t, executed) == Caught(u, executed)
  {
    if executed != [] {
      SameCaught(t, u, executed[..|executed| - 1]);
      assert Registered(t, executed[|executed| - 1]) <==> Registered(u, executed[|executed| - 1]);
    }
  }

  /** With the callbacks in step and no call waiting, every breakpoint of the list is caught. */
  lemma {:induction false} AllCaught(t: Breaks, executed: seq<nat>)
    requires Conserved(t) && Covered(t) && t.alone == []
    requires forall i :: 0 <= i < |executed| ==> executed[i] in t.bpList
    ensures Caught(t, executed) == executed
  {
    hide Conserved, Covered;
    if executed != [] {
      AllCaught(t, executed[..|executed| - 1]);
      CallbacksPartition(t);
      assert executed[|executed| - 1] in t.bpList;
    }
  }

  lemma AllLookUps(t: Breaks, aflMap: map<Addr, nat>, reEnable: seq<nat>, hit255: seq<Addr>, bps: seq<nat>)
    requires Sound(t, aflMap, reEnable, hit255) && forall i :: 0 <= i < |bps| ==> bps[i] in t.bpList
    ensures forall i :: 0 <= i < |bps| ==> bps[i] in t.addrMap
  {
    hide Sound;
    forall i | 0 <= i < |bps| ensures bps[i] in t.addrMap {
      LookUp(t, aflMap, reEnable, hit255, bps[i]);
    }
  }

  lemma ReplayNone(m: map<Addr, nat>, am: map<nat, Addr>, t: Breaks, executed: seq<nat>)
    ensures EdgeMap.Replay(m, BlocksOf(am, Caught(t, executed[..0]))) == EdgeMap.FRESH
  {
  }

  lemma ReplayOne(m: map<Addr, nat>, am: map<nat, Addr>, t: Breaks, executed: seq<nat>, k: nat)
    requires k < |executed| && forall i :: 0 <= i < |executed| ==> executed[i] in am
    ensures var before := EdgeMap.Replay(m, BlocksOf(am, Caught(t, executed[..k])));
      EdgeMap.Replay(m, BlocksOf(am, Caught(t, executed[..k + 1]))) ==
        if Registered(t, executed[k]) then EdgeMap.Hit(m, before, am[executed[k]]) else before
  {
    hide Registered, EdgeMap.Replay, EdgeMap.Hit;
    assert executed[..k + 1][..k] == executed[..k];
    var caught := Caught(t, executed[..k]);
    if Registered(t, executed[k]) {
      EdgeMap.ReplayNext(m, BlocksOf(am, caught), am[executed[k]]);
      assert BlocksOf(am, caught + [executed[k]]) == BlocksOf(am, caught) + [am[executed[k]]];
    } else {
      assert caught + [] == caught;
    }
  }
}
