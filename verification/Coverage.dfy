/** The Coverage class of coverage.py in AFL mode with physical breakpoints: breakpoints on the basic
    blocks, callbacks on ranges of them, breakpoints added as pages get mapped, and the edge map. */
module Coverage {
  import opened Addresses
  import opened Collections
  import opened HapRanges
  import opened BlockBreaks
  import opened BreakTable
  import opened MissingBlocks
  import opened CoverageState
  import opened CoverageRuns
  import EdgeMap

  class Coverage {
    const jumpers: set<Addr>
    const deadList: set<int>
    const offset: int

    // breakpoints
    var table: Breaks
    var aflMap: map<Addr, nat>
    var unmapped: seq<Addr>
    var missing: Missing

    // edge map
    var halted: bool
    const traceBits: array<nat>
    var prevLoc: Option<nat>
    var hitCount: nat
    var hit255: seq<Addr>
    var reEnable: seq<nat>
    ghost var log: seq<nat>  // edges of the accepted hits since the last doCoverage

    ghost predicate Valid()
      reads this, traceBits
    {
      && Sound(table, aflMap, reEnable, hit255)
      && MissingKnown(missing, aflMap)
      && BitsCount(traceBits[..], hitCount, log)
      && (prevLoc.Some? ==> prevLoc.value < EdgeMap.MAP_SIZE)
    }

    /** The abstract state of the edge map. */
    ghost function Edges(): EdgeMap.Reference
      reads this
      requires prevLoc.Some?
    {
      EdgeMap.Reference(prevLoc.value, ToSet(hit255), log)
    }

    /** The abstract state once an iteration has begun. */
    ghost function Map(): Option<EdgeMap.Reference>
      reads this
    {
      if prevLoc.Some? then Some(Edges()) else None
    }

    ghost function Now(): View
      reads this
    {
      View(table, Map(), halted, reEnable)
    }

    ghost function Parts(): Setup
      reads this
    {
      Setup(jumpers, deadList, offset, aflMap, missing)
    }

    // ---- enableCoverage ----

    constructor (jumpers: set<Addr>, deadList: set<int>, offset: int, firstBreak: nat)
      ensures Valid() && table == Empty(firstBreak)
      ensures reEnable == [] && prevLoc == None && !halted && aflMap == map[] && missing == map[]
      ensures this.jumpers == jumpers && this.deadList == deadList && this.offset == offset
      ensures fresh(traceBits)
    {
      this.jumpers, this.deadList, this.offset := jumpers, deadList, offset;
      table := Empty(firstBreak);
      aflMap, unmapped, missing := map[], [], map[];
      traceBits := new nat[65536](_ => 0);
      prevLoc, hitCount, hit255, reEnable, halted, log := None, 0, [], [], false, [];
      new;
      hide Conserved, Covered, EdgeMap.Bitmap, EdgeMap.NonZero;
      EmptyConserves(firstBreak);
      EdgeMap.EmptyBitmap(traceBits[..]);
    }

    // ---- bbHap ----

    /** The callback for a breakpoint that was hit. */
    method BbHap(bp: nat)
      requires Valid() && bp in table.bpList && prevLoc.Some?
      modifies this`table, this`prevLoc, this`hitCount, this`hit255, this`reEnable, this`log, traceBits
      ensures Valid() && prevLoc.Some? && bp in table.addrMap
      ensures Edges() ==
        if old(halted || table.bbHap == []) then old(Edges())
        else EdgeMap.Hit(aflMap, old(Edges()), table.addrMap[bp])
      ensures table.addrMap[bp] in aflMap
      ensures !old(halted || table.bbHap == []) && table.addrMap[bp] !in old(hit255) ==>
        EdgeMap.OneEdge(old(Edges()), aflMap[table.addrMap[bp]], Edges())
      ensures if table.addrMap[bp] in hit255 && table.addrMap[bp] !in old(hit255) && table.addrMap[bp] !in jumpers
              then table == old(table.(sim := table.sim.Disable(bp))) && reEnable == old(reEnable) + [bp]
              else table == old(table) && reEnable == old(reEnable)
    {
      hide Sound, MissingKnown, BitsCount, EdgeMap.Xor, EdgeMap.OneEdge;
      LookUp(table, aflMap, reEnable, hit255, bp);
      var thisAddr := table.addrMap[bp];
      ghost var before := Edges();
      if !halted && thisAddr !in hit255 && table.bbHap != [] {
        var curLoc := aflMap[thisAddr];
        EdgeMap.IndexInMap(curLoc, prevLoc.value);
        var saturated := CountEdge(EdgeMap.Xor(curLoc, prevLoc.value));
        if saturated {
          Saturate(bp);
        }
        prevLoc := Some(curLoc / 2);
        EdgeMap.HitIsEdge(aflMap, before, thisAddr);
      }
    }

    /** The map update: a byte that is full stays full, any other is increased. */
    method CountEdge(index: nat) returns (full: bool)
      requires BitsCount(traceBits[..], hitCount, log) && index < EdgeMap.MAP_SIZE
      modifies this`hitCount, this`log, traceBits
      ensures BitsCount(traceBits[..], hitCount, log) && log == old(log) + [index]
      ensures full <==> multiset(old(log))[index] >= 255
    {
      hide EdgeMap.Bitmap, EdgeMap.NonZero;
      EdgeMap.OneMoreEdge(log, index);
      ghost var bits := traceBits[..];
      full := traceBits[index] == 255;
      if traceBits[index] == 0 {
        hitCount := hitCount + 1;
      }
      if !full {
        traceBits[index] := traceBits[index] + 1;
      }
      log := log + [index];
      assert traceBits[..] == if full then bits else bits[index := bits[index] + 1];
    }

    /** A block whose edge is full is ignored from now on, and its breakpoint disabled unless it is a jumper. */
    method Saturate(bp: nat)
      requires Sound(table, aflMap, reEnable, hit255) && bp in table.bpList && bp in table.addrMap
      modifies this`table, this`hit255, this`reEnable
      ensures Sound(table, aflMap, reEnable, hit255)
      ensures ToSet(hit255) == old(ToSet(hit255) + {table.addrMap[bp]})
      ensures if old(table.addrMap[bp]) in jumpers then table == old(table) && reEnable == old(reEnable)
              else table == old(table.(sim := table.sim.Disable(bp))) && reEnable == old(reEnable) + [bp]
    {
      hide Sound;
      var thisAddr := table.addrMap[bp];
      var more := if thisAddr in jumpers then [thisAddr, thisAddr] else [thisAddr];
      SoundWhenSaturated(table, aflMap, reEnable, hit255, bp, more);
      hit255 := hit255 + more;
      if thisAddr !in jumpers {
        table := table.(sim := table.sim.Disable(bp));
        reEnable := reEnable + [bp];
      }
    }

    // ---- doCoverage ----

    /** Start of an iteration: a clear map, and every saturated breakpoint enabled again. The simulator
        refuses to enable a breakpoint that has been deleted; then this raises, with the map already clear
        and the breakpoints before that one enabled, and keeps the whole list for the next time. */
    method DoCoverage() returns (raised: bool)
      requires Valid()
      modifies this`table, this`halted, this`prevLoc, this`hitCount, this`hit255, this`reEnable, this`log, traceBits
      ensures raised <==> !(ToSet(old(reEnable)) <= old(table.sim.live))
      ensures !halted && Map() == Some(EdgeMap.FRESH) && BitsCount(traceBits[..], hitCount, log)
      ensures table == old(table.(sim := table.sim.Enable(StillThere(reEnable, table.sim.live))))
      ensures !raised ==> Valid() && reEnable == [] && ToSet(table.bpList) <= table.sim.enabled
      ensures raised ==> reEnable == old(reEnable)
    {
      hide Sound, MissingKnown, EdgeMap.Bitmap, EdgeMap.NonZero;
      halted := false;
      ClearBits();
      prevLoc, hitCount, hit255, log := Some(0), 0, [], [];
      assert Edges() == EdgeMap.FRESH;
      ghost var there := StillThere(reEnable, table.sim.live);
      StillThereAll(reEnable, table.sim.live);
      raised := EnableEach();
      if !raised {
        SoundWhenEnabled(old(table), aflMap, reEnable, old(hit255));
        assert there == reEnable;
        reEnable := [];
      }
    }

    /** SIM_enable_breakpoint for each of re_enable_bp, up to the first that is gone. */
    method EnableEach() returns (raised: bool)
      modifies this`table
      ensures raised <==> StillThere(reEnable, table.sim.live) != reEnable
      ensures table == old(table.(sim := table.sim.Enable(StillThere(reEnable, table.sim.live))))
    {
      raised := false;
      var k := 0;
      while k < |reEnable| && !raised
        invariant k <= |reEnable|
        invariant ToSet(reEnable[..k]) <= old(table.sim.live)
          && table == old(table.(sim := table.sim.Enable(reEnable[..k])))
        invariant raised ==> k < |reEnable| && reEnable[k] !in table.sim.live
        decreases |reEnable| - k, !raised
      {
        if reEnable[k] in table.sim.live {
          assert reEnable[..k + 1] == reEnable[..k] + [reEnable[k]];
          ToSetAppend(reEnable[..k], reEnable[k]);
          table := table.(sim := table.sim.(enabled := table.sim.enabled + {reEnable[k]}));
          k := k + 1;
        } else {
          raised := true;
        }
      }
      StillThereIs(reEnable, table.sim.live, k);
    }

    /** trace_bits.__init__(map_size) */
    method ClearBits()
      requires traceBits.Length == EdgeMap.MAP_SIZE
      modifies traceBits
      ensures traceBits[..] == EdgeMap.Bitmap([]) && EdgeMap.NonZero(EdgeMap.Bitmap([])) == 0
    {
      for i := 0 to traceBits.Length
        invariant forall k :: 0 <= k < i ==> traceBits[k] == 0
      {
        traceBits[i] := 0;
      }
      EdgeMap.EmptyBitmap(traceBits[..]);
    }
  
    // ---- setBlockBreaks ----

    /** Breakpoints on all blocks of the analysis (bb_rel in the order of functions and blocks, with the
        map locations drawn for them), and page-table entries to watch for those not mapped yet. */
    method SetBlockBreaks(blocks: seq<Addr>, draws: seq<nat>, mapped: set<Addr>, places: map<Addr, Place>)
      requires Valid() && |draws| == |blocks| && forall i :: 0 <= i < |draws| ==> draws[i] < EdgeMap.MAP_SIZE
      modifies this`table, this`aflMap, this`unmapped, this`missing
      ensures BlocksSet(Stopped(old(table)), table, Wanted(blocks, mapped, deadList))
      ensures aflMap == Located(old(aflMap), blocks, draws)
      ensures unmapped == Left(blocks, mapped, deadList)
        && Filed(WithoutTables(old(missing)), missing, unmapped, places)
      ensures Conserved(table) <==> old(table.didMissing == [] && table.didMissingHap == [])
      ensures ToSet(reEnable) <= table.sim.live <==> reEnable == []
      ensures Conserved(table) ==> Valid() && (Covered(table) <==> table.alone == [])
    {
      hide Sound, Conserved, Covered, BitsCount, Building, BlocksSet, Wanted, Left, Located, Filed, MissingKnown,
        Stopped;
      StoppedInOrder(table, aflMap, reEnable, hit255);
      StopCover();
      SetEach(blocks, draws, mapped);
      HandleUnmapped(places);
      AllSet(old(table), table, old(aflMap), blocks, draws, mapped, deadList, reEnable, hit255);
      FiledInOrder(old(missing), missing, blocks, draws, mapped, deadList, places, old(aflMap));
    }

    method StopCover()
      requires Valid()
      modifies this`table, this`unmapped, this`missing
      ensures table == Stopped(old(table)) && unmapped == [] && missing == WithoutTables(old(missing))
    {
      table := table.(sim := table.sim.DeleteBreaks(table.bpList), bpList := []);
      table := table.(sim := table.sim.DeleteHaps(table.bbHap), bbHap := []);
      unmapped := [];
      missing := WithoutTables(missing);
    }

    /** The two nested loops over functions and blocks, with setBreak and the grouping of consecutive numbers. */
    method SetEach(blocks: seq<Addr>, draws: seq<nat>, mapped: set<Addr>)
      requires Building(table, []) && table.bpList == [] && table.bbHap == [] && unmapped == [] && |draws| == |blocks|
      modifies this`table, this`aflMap, this`unmapped
      ensures BlocksSet(old(table), table, Wanted(blocks, mapped, deadList))
      ensures aflMap == Located(old(aflMap), blocks, draws)
      ensures unmapped == Left(blocks, mapped, deadList)
    {
      hide Building, Marks, Wanted, Left, Located, OnlyOriginal, BlocksSet;
      var tmpList: seq<nat>, didBreaksAt: seq<Addr> := [], [];
      LoopStarts(table, aflMap, mapped, deadList);
      for k := 0 to |blocks|
        invariant Building(table, tmpList) && OnlyOriginal(old(table), table) && Marks(table, didBreaksAt)
        invariant didBreaksAt == Wanted(blocks[..k], mapped, deadList)
          && unmapped == Left(blocks[..k], mapped, deadList)
        invariant aflMap == Located(old(aflMap), blocks[..k], draws[..k])
      {
        var bb := blocks[k];
        LoopNext(blocks[..k], bb, draws[..k], draws[k], old(aflMap), mapped, deadList);
        assert blocks[..k] + [bb] == blocks[..k + 1] && draws[..k] + [draws[k]] == draws[..k + 1];
        aflMap := aflMap[bb := draws[k]];
        if bb !in didBreaksAt && bb !in deadList {
          if bb !in mapped {
            unmapped := unmapped + [bb];
          } else {
            tmpList := NextBreak(bb, tmpList, old(table), didBreaksAt);
            didBreaksAt := didBreaksAt + [bb];
          }
        }
      }
      assert blocks[..|blocks|] == blocks && draws[..|draws|] == draws;
      LoopEnds(old(table), table, tmpList, didBreaksAt);
      if |tmpList| > 0 {
        DoHapRange(tmpList);
      }
      table := table.(origBpList := table.bpList, origBbHap := table.bbHap, origLive := table.sim.live,
        origHaps := table.sim.haps);
    }

    /** setBreak on a mapped block, and what setBlockBreaks does with the breakpoint. */
    method NextBreak(bb: Addr, tmpList: seq<nat>, ghost t0: Breaks, ghost marked: seq<Addr>) returns (tmp: seq<nat>)
      requires Building(table, tmpList) && OnlyOriginal(t0, table) && Marks(table, marked)
      modifies this`table
      ensures Building(table, tmp) && OnlyOriginal(t0, table) && Marks(table, marked + [bb])
    {
      hide Building, Marks, OnlyOriginal;
      var skipped: nat := *;  // other parts of the monitor set breakpoints too
      TurnBuilds(table, tmpList, bb, skipped);
      TurnIsOriginal(t0, table, tmpList, bb, skipped);
      TurnMarks(table, tmpList, bb, skipped, marked);
      var bp := table.sim.nextBreak + skipped;
      table := table.(sim := table.sim.NewBreak(skipped), addrMap := table.addrMap[bp := bb]);
      table := table.(bpList := table.bpList + [bp]);
      tmp := tmpList;
      if tmp != [] && bp != tmp[|tmp| - 1] + 1 {
        DoHapRange(tmp);
        tmp := [];
      }
      tmp := tmp + [bp];
      assert [] + [bp] == [bp];
    }

    method DoHapRange(bps: seq<nat>)
      requires bps != []
      modifies this`table
      ensures table == OnRange(old(table), bps)
    {
      var hap := table.sim.nextHap;
      table := table.(sim := table.sim.AddHap(RangeOf(bps)));
      table := table.(bbHap := table.bbHap + [hap]);
    }

    method HandleUnmapped(places: map<Addr, Place>)
      modifies this`missing
      ensures Filed(old(missing), missing, unmapped, places)
    {
      hide Filed, Under;
      FiledNone(missing, places);
      for k := 0 to |unmapped|
        invariant Filed(old(missing), missing, unmapped[..k], places)
      {
        var bb := unmapped[k];
        FiledNext(old(missing), missing, unmapped[..k], places, bb);
        assert unmapped[..k] + [bb] == unmapped[..k + 1];
        var p := PlaceOf(places, bb);
        ghost var filed := FileOne(missing, bb, p);
        if Watched(p) {
          if p !in missing {
            missing := missing[p := []];
          }
          missing := missing[p := missing[p] + [bb]];
        }
        assert missing == filed;
      }
      assert unmapped[..|unmapped|] == unmapped;
    }

    // ---- Page-table updates ----

    /** The loop that tableUpdated, pageBaseUpdated and ptegUpdated share. */
    method AddMissing(list: seq<Addr>, walk: map<Addr, int>, adjusted: bool)
      requires Valid() && Known(list, aflMap)
      modifies this`table
      ensures Valid() && DynamicOnly(old(table), table)
      ensures table.didMissing ==
        old(table.didMissing) + Newly(list, old(table.didMissing), Eligible(walk, deadList, offset, adjusted))
      ensures Covered(old(table)) <==> Covered(table)
    {
      hide Sound, OpenRun, CoveredTo, Covered, Newly, MissingKnown, BitsCount;
      SoundIsAppended(table, aflMap, reEnable, hit255);
      ghost var eligible := Eligible(walk, deadList, offset, adjusted);
      NewlyNext([], 0, table.didMissing, eligible);
      var bbIndex: nat, gotOne := |table.bpList|, false;
      for k := 0 to |list|
        invariant Sound(table, aflMap, reEnable, hit255) && DynamicOnly(old(table), table)
        invariant OpenRun(table, bbIndex) && bbIndex <= |table.bpList| && (gotOne <==> bbIndex < |table.bpList|)
        invariant Covered(old(table)) <==> CoveredTo(table, bbIndex)
        invariant table.didMissing == old(table.didMissing) + Newly(list[..k], old(table.didMissing), eligible)
      {
        var bb := list[k];
        NewlyNext(list[..k], bb, old(table.didMissing), eligible);
        assert list[..k] + [bb] == list[..k + 1];
        if bb !in table.didMissing && bb in walk {
          if (if adjusted then walk[bb] - offset else bb) !in deadList {
            bbIndex := OneMissing(bb, bbIndex);
            gotOne := true;
          }
        }
      }
      assert list[..|list|] == list;
      if gotOne {
        SoundWhenDeferred(table, aflMap, reEnable, hit255, bbIndex);
        RunAloneLater(bbIndex);
      }
      SoundIsAppended(table, aflMap, reEnable, hit255);
    }

    method OneMissing(bb: Addr, bbIndex: nat) returns (index: nat)
      requires Sound(table, aflMap, reEnable, hit255) && OpenRun(table, bbIndex) && bbIndex <= |table.bpList|
      requires bb in aflMap && bb !in table.didMissing
      modifies this`table
      ensures Sound(table, aflMap, reEnable, hit255) && OpenRun(table, index) && index < |table.bpList|
      ensures DynamicOnly(old(table), table) && table.didMissing == old(table.didMissing) + [bb]
      ensures CoveredTo(old(table), bbIndex) <==> CoveredTo(table, index)
    {
      hide Sound, OpenRun, CoveredTo;
      var skipped: nat := *;
      AddedInOrder(table, bbIndex, bb, skipped, aflMap, reEnable, hit255);
      ghost var added := Added(table, bbIndex, bb, skipped);
      var bp := table.sim.nextBreak + skipped;
      table := table.(sim := table.sim.NewBreak(skipped), addrMap := table.addrMap[bp := bb]);
      index := bbIndex;
      if bbIndex < |table.bpList| && bp != table.bpList[|table.bpList| - 1] + 1 {
        RunAloneLater(bbIndex);
        index := |table.bpList|;
      }
      table := table.(bpList := table.bpList + [bp]);
      table := table.(didMissing := table.didMissing + [bb], didMissingBreak := table.didMissingBreak + [bp]);
      assert (table, index) == added;
    }

    /** SIM_run_alone(self.addHapAlone, self.bp_list[bb_index:]) */
    method RunAloneLater(bbIndex: nat)
      requires bbIndex <= |table.bpList|
      modifies this`table
      ensures table == Defer(old(table), bbIndex)
    {
      table := table.(alone := table.alone + [table.bpList[bbIndex..]]);
    }

    /** tableUpdated: something was stored at the address of a page table. */
    method TableUpdated(physical: int, store: bool, value: int, walk: map<Addr, int>)
      requires Valid()
      modifies this`table
      ensures Valid() && DynamicOnly(old(table), table) && (Covered(old(table)) <==> Covered(table))
      ensures table.didMissing == old(table.didMissing) + (
        if Table(physical) in missing && store && value != 0
        then Newly(missing[Table(physical)], old(table.didMissing), Eligible(walk, deadList, offset, false)) else [])
    {
      hide Sound, BitsCount, Newly, Covered;
      if Table(physical) in missing && store && value != 0 {
        assert Known(ListAt(missing, Table(physical)), aflMap);
        AddMissing(missing[Table(physical)], walk, false);
      }
    }

    /** pageBaseUpdated: the address must be one of those watched, or the look-up raises. */
    method PageBaseUpdated(physical: int, store: bool, value: int, walk: map<Addr, int>)
      requires Valid() && PageBase(physical) in missing
      modifies this`table
      ensures Valid() && DynamicOnly(old(table), table) && (Covered(old(table)) <==> Covered(table))
      ensures table.didMissing == old(table.didMissing) + (
        if store && value != 0
        then Newly(missing[PageBase(physical)], old(table.didMissing), Eligible(walk, deadList, offset, true)) else [])
    {
      hide Sound, BitsCount, Newly, Covered;
      if store && value != 0 {
        assert Known(ListAt(missing, PageBase(physical)), aflMap);
        AddMissing(missing[PageBase(physical)], walk, true);
      }
    }

    /** ptegUpdated: the store fell in the 64 bytes of this entry group. Only first groups are listed, so
        for a store to the second group of an address no entry is found, and the handler raises. */
    method PtegUpdated(physical: int, pteg: int, walk: map<Addr, int>)
      requires Valid() && Pteg(pteg) in missing && pteg <= physical < pteg + 64
      modifies this`table
      ensures Valid() && DynamicOnly(old(table), table) && (Covered(old(table)) <==> Covered(table))
      ensures table.didMissing == old(table.didMissing)
        + Newly(missing[Pteg(pteg)], old(table.didMissing), Eligible(walk, deadList, offset, true))
    {
      hide Sound, BitsCount, Newly, Covered;
      assert Known(ListAt(missing, Pteg(pteg)), aflMap);
      AddMissing(missing[Pteg(pteg)], walk, true);
    }

    /** The simulator gets round to the first call that waits: addHapAlone. */
    method RunAlone()
      requires Valid() && table.alone != []
      modifies this`table
      ensures old(table).alone[0] != [] && table == RunFirst(old(table))
      ensures Valid() && (Covered(old(table)) <==> Covered(table))
    {
      hide Sound, BitsCount, MissingKnown, Covered;
      SoundAfterFirst(table, aflMap, reEnable, hit255);
      var bps, hap := table.alone[0], table.sim.nextHap;
      table := table.(alone := table.alone[1..]);
      table := table.(sim := table.sim.AddHap(RangeOf(bps)), bbHap := table.bbHap + [hap],
        didMissingHap := table.didMissingHap + [hap]);
    }

    // ---- resetCoverage ----

    /** Back to what setBlockBreaks left: no dynamic breakpoint or callback is left in the simulator, and no
        original one is missing or disabled. Breakpoints waiting to be enabled are not forgotten: the next
        doCoverage will ask for a deleted one exactly if a dynamic breakpoint had saturated. */
    method ResetCoverage()
      requires Valid()
      modifies this`table
      ensures Valid() && Restored(old(table), table)
      ensures Covered(table) <==> old(table.alone) == []
      ensures ToSet(old(reEnable)) <= old(table.sim.live) ==>
        (ToSet(reEnable) <= table.sim.live <==> forall bp :: bp in reEnable ==> bp !in old(table.didMissingBreak))
    {
      hide Sound, BitsCount, MissingKnown, Covered, Conserved;
      SoundAfterReset(table, aflMap, reEnable, hit255);
      RestoredByReset(table, aflMap, reEnable, hit255);
      table := table.(sim := table.sim.DeleteBreaks(table.didMissingBreak));
      table := table.(sim := table.sim.DeleteHaps(table.didMissingHap));
      table := table.(didMissing := [], didMissingBreak := [], didMissingHap := []);
      table := table.(bpList := table.origBpList, bbHap := table.origBbHap);
      EnableAll();
    }

    method EnableAll()
      requires ToSet(table.bpList) <= table.sim.live
      modifies this`table
      ensures table == old(table.(sim := table.sim.Enable(table.bpList)))
    {
      table := table.(sim := table.sim.Enable(table.bpList));
    }

    // ---- An iteration of AFL ----

    /** The program under test runs over blocks that have breakpoints, and those that are enabled and have
        their callback registered deliver it. Map and count are those of the reference, in which nothing is
        ever disabled: they depend on the blocks executed alone, and on no earlier iteration. */
    method RunIteration(executed: seq<nat>) returns (raised: bool)
      requires Valid() && forall i :: 0 <= i < |executed| ==> executed[i] in table.bpList
      modifies this`table, this`halted, this`prevLoc, this`hitCount, this`hit255, this`reEnable, this`log, traceBits
      ensures raised <==> !(ToSet(old(reEnable)) <= old(table.sim.live))
      ensures raised ==> Map() == Some(EdgeMap.FRESH) && reEnable == old(reEnable)
      ensures SameBreaks(old(table), table) && (!raised ==> Valid() && ToSet(reEnable) <= table.sim.live)
      ensures forall i :: 0 <= i < |executed| ==> executed[i] in table.addrMap
      ensures !raised ==> ItsMap(EdgeMap.Replay(aflMap, BlocksOf(table.addrMap, Caught(table, executed))))
      ensures !raised ==> EdgeMap.Logged(Edges(), aflMap,
        EdgeMap.Accepted(aflMap, BlocksOf(table.addrMap, Caught(table, executed))))
    {
      hide Sound, MissingKnown, BitsCount, EdgeMap.Hit, EdgeMap.Replay, EdgeMap.Accepted, EdgeMap.Logged,
        EdgeMap.OneEdge, Caught, BlocksOf, Registered;
      ghost var m, am := aflMap, table.addrMap;
      AllLookUps(table, aflMap, reEnable, hit255, executed);
      raised := DoCoverage();
      if !raised {
        ReplayNone(m, am, table, executed);
        for k := 0 to |executed|
          invariant Valid() && !halted && prevLoc.Some? && SameBreaks(old(table), table)
            && ToSet(reEnable) <= table.sim.live
          invariant Edges() == EdgeMap.Replay(m, BlocksOf(am, Caught(table, executed[..k])))
        {
          var bp := executed[k];
          ReplayOne(m, am, table, executed, k);
          LookUp(table, aflMap, reEnable, hit255, bp);
          ghost var before := table;
          if Registered(table, bp) {
            SomeCallback(table, bp);
            if bp in table.sim.enabled {
              BbHap(bp);
            } else {
              EdgeMap.SaturatedHitIsNoOp(m, Edges(), am[bp]);
            }
          }
          SameCaught(before, table, executed[..k + 1]);
        }
        assert executed[..|executed|] == executed;
        EdgeMap.ReplayIsLogged(m, BlocksOf(am, Caught(table, executed)));
      }
    }

    /** The map handed to AFL and the count of its bytes that are not zero. */
    ghost predicate ItsMap(r: EdgeMap.Reference)
      reads this, traceBits
    {
      Map() == Some(r) && BitsCount(traceBits[..], hitCount, r.log)
    }

    // ---- Any run ----

    method HaltCoverage()
      modifies this`halted
      ensures halted
    {
      halted := true;
    }

    method Handle(e: Event) returns (seen: Seen, raised: bool)
      requires Valid()
      modifies this`table, this`halted, this`prevLoc, this`hitCount, this`hit255, this`reEnable, this`log, traceBits
      ensures raised <==> Raises(old(Now()), e)
      ensures !raised ==> Valid()
      ensures Handled(Parts(), old(Now()), e, seen, Now())
      ensures SameOriginal(old(table), table) && AddrsKept(old(table), table)
    {
      hide Sound, MissingKnown, BitsCount, Covered, Newly, Restored, DynamicOnly, EdgeMap.Hit, Eligible, Fills,
        StillThere, RunFirst, HitAt, SameOriginal, AddrsKept, ToSet;
      seen, raised := Seen(None, table.alone != []), false;
      ghost var t0, v := table, Now();
      match e {
      case TableStore(physical, store, value, walk) =>
        TableUpdated(physical, store, value, walk);
      case PageBaseStore(physical, store, value, walk) =>
        if PageBase(physical) in missing {
          PageBaseUpdated(physical, store, value, walk);
        } else {
          NothingGained(Parts(), v, e, seen);
        }
      case PtegStore(physical, pteg, walk) =>
        if Pteg(pteg) in missing && pteg <= physical < pteg + 64 {
          PtegUpdated(physical, pteg, walk);
        } else {
          NothingGained(Parts(), v, e, seen);
        }
      case FirstAlone =>
        if table.alone != [] {
          RunAlone();
        }
      case Iterate =>
        raised := DoCoverage();
        CoveredBySame(t0, table);
      case Break(bp) =>
        var hit := HitBlock(bp);
        seen := seen.(hit := hit);
      case Halt =>
        HaltCoverage();
      case StartOver =>
        ResetCoverage();
      }
      TableKept(Parts(), v, e, seen, table);
    }

    /** A callback comes only for a breakpoint of the list, and is counted only after an iteration has begun
        and while coverage is neither halted nor without callbacks. */
    method HitBlock(bp: nat) returns (hit: Option<Addr>)
      requires Valid()
      modifies this`table, this`prevLoc, this`hitCount, this`hit255, this`reEnable, this`log, traceBits
      ensures Valid() && SameOriginal(old(table), table) && AddrsKept(old(table), table)
      ensures Covered(table) <==> Covered(old(table))
      ensures hit.Some? <==> bp in old(table.bpList) && old(prevLoc.Some? && !halted && table.bbHap != [])
      ensures hit.Some? ==> HitAt(old(table), Break(bp), hit.value)
      ensures Map() == MapAfter(aflMap, Break(bp), hit, old(Map()))
      ensures hit.Some? && hit.value !in old(hit255) ==>
        hit.value in aflMap && EdgeMap.OneEdge(old(Edges()), aflMap[hit.value], Edges())
      ensures if old(Map()).Some? && hit.Some? && Fills(Parts(), old(Edges()), hit.value)
              then table == old(table.(sim := table.sim.Disable(bp))) && reEnable == old(reEnable) + [bp]
              else table == old(table) && reEnable == old(reEnable)
    {
      hide Sound, MissingKnown, BitsCount, Covered, EdgeMap.Hit, EdgeMap.OneEdge;
      hit := None;
      ghost var t0 := table;
      if bp in table.bpList && prevLoc.Some? {
        BreakNumber(table, aflMap, reEnable, hit255, bp);
        if !halted && table.bbHap != [] {
          hit := Some(table.addrMap[bp]);
        }
        ghost var before := Edges();
        BbHap(bp);
        assert before.saturated == old(ToSet(hit255)) && Edges().saturated == ToSet(hit255);
        assert table.addrMap[bp] in old(hit255) <==> table.addrMap[bp] in before.saturated;
        assert table.addrMap[bp] in hit255 <==> table.addrMap[bp] in Edges().saturated;
      }
      CoveredBySame(t0, table);
    }

    /** Over any sequence of page-table updates, deferred calls, hits, iterations, halts and resets, each of
        which does what Handled says of it:
        - every invariant is kept, up to an iteration that asks for a deleted breakpoint, where the run ends;
        - no other iteration ends it: that happens exactly if a dynamic breakpoint has saturated since the
          last iteration began and a reset has followed;
        - the edge map is at the end that of the blocks hit since the last iteration began, whatever was
          added or reset in between and whatever earlier iterations did;
        - the callbacks match the breakpoints exactly if no call was waiting at the last reset. */
    method Run(events: seq<Event>, ghost start: Option<seq<Addr>>)
        returns (done: nat, seen: seq<Seen>, ghost views: seq<View>)
      requires Valid() && Map() == ReplayOf(aflMap, start)
      modifies this`table, this`halted, this`prevLoc, this`hitCount, this`hit255, this`reEnable, this`log, traceBits
      ensures done == |seen| && History(Parts(), events, seen, views) && views[0] == old(Now())
      ensures done == |events| ==> Valid() && views[done] == Now()
      ensures done < |events| ==> StopsAt(Parts(), views[done], events[done], Now())
      ensures forall k :: 0 <= k <= done && k < |events| && events[k].Iterate? ==>
        (k == done <==> Stranded(Parts(), start, events, seen, old(Now()), k))
      ensures ToSet(old(reEnable)) <= old(table.sim.live) && StartOver !in events ==> done == |events|
      ensures done == |events| ==> Map() == ReplayOf(aflMap, HitsOver(start, events, seen))
      ensures done == |events| && HitsOver(start, events, seen).Some? ==>
        BitsCount(traceBits[..], hitCount, EdgeMap.Replay(aflMap, HitsOver(start, events, seen).value).log)
      ensures done == |events| && HitsOver(start, events, seen).Some? ==>
        EdgeMap.Logged(Edges(), aflMap, EdgeMap.Accepted(aflMap, HitsOver(start, events, seen).value))
      ensures SameOriginal(old(table), table) && HitsMatch(table, events, seen)
      ensures Covered(table) <==> InStep(Covered(old(table)), events[..done], seen)
    {
      hide Sound, MissingKnown, BitsCount, Covered, AddrsKept, Handled, InOrderAt, History, Stranded;
      hide HitsMatch, HitsOver, InStep, MapAfter, ReplayOf, HitAt, StopsAt, EdgeMap.Logged, EdgeMap.Accepted;
      ghost var p, first := Parts(), Now();
      NowInOrder();
      done, seen, views := 0, [], [first];
      HistoryBegins(p, events, first, start, Covered(table));
      var raised := false;
      while done < |events| && !raised
        invariant done == |seen| <= |events| && |views| == done + 1 && History(p, events, seen, views)
        invariant Parts() == p && views[0] == first
        invariant raised ==> done < |events| && StopsAt(p, views[done], events[done], Now())
        invariant !raised ==> Valid() && views[done] == Now()
        invariant !raised ==> Map() == ReplayOf(aflMap, HitsOver(start, events[..done], seen))
        invariant SameOriginal(old(table), table) && HitsMatch(table, events, seen)
        invariant Covered(table) <==> InStep(Covered(old(table)), events[..done], seen)
        decreases |events| - done, !raised
      {
        ghost var t0, n := table, events[..done];
        var s;
        s, raised := Handle(events[done]);
        if raised {
          HandledParts(p, views[done], events[done], s, Now());
          HandledRaise(p, views[done], events[done], s, Now());
          HitsMatchKept(t0, table, events, seen);
        } else {
          assert events[..done + 1] == n + [events[done]];
          HandledParts(p, views[done], events[done], s, Now());
          OverNext(aflMap, start, Covered(old(table)), n, seen, events[done], s);
          HitsMatchNext(t0, table, events, seen, s);
          NowInOrder();
          HistoryNext(p, events, seen, views, s, Now());
          done, seen, views := done + 1, seen + [s], views + [Now()];
        }
      }
      assert events[..|events|] == events;
      ReplayIsSome(aflMap, HitsOver(start, events[..done], seen));
      HitsAreLogged(aflMap, HitsOver(start, events[..done], seen));
      OnlyStrandedRaise(p, start, events, seen, views, Now());
    }

    lemma NowInOrder()
      requires Valid()
      ensures InOrderAt(Now())
    {
    }
  }
}
