/** The breakpoint bookkeeping of coverage.py: the original breakpoints and callbacks of
    setBlockBreaks, the dynamic ones added as pages get mapped, and the simulator's side of both. */
module BreakTable {
  import opened Addresses
  import opened Collections
  import opened HapRanges

  /** What the simulator keeps for us: breakpoints, which of them are enabled, and callbacks on ranges. */
  datatype Simulator = Simulator(
    nextBreak: nat, live: set<nat>, enabled: set<nat>,
    nextHap: nat, haps: map<nat, Range>)
  {

    ghost predicate Valid() {
      enabled <= live && (forall b :: b in live ==> b < nextBreak) && (forall h :: h in haps ==> h < nextHap)
    }

    /** A fresh breakpoint; `skipped` numbers have gone to other parts of the monitor since the last one. */
    function NewBreak(skipped: nat): Simulator {
      var bp := nextBreak + skipped;
      this.(nextBreak := bp + 1, live := live + {bp}, enabled := enabled + {bp})
    }

    function DeleteBreaks(bps: seq<nat>): Simulator {
      this.(live := live - ToSet(bps), enabled := enabled - ToSet(bps))
    }

    function Disable(bp: nat): Simulator {
      this.(enabled := enabled - {bp})
    }

    function Enable(bps: seq<nat>): Simulator
      requires ToSet(bps) <= live
    {
      this.(enabled := enabled + ToSet(bps))
    }

    function AddHap(r: Range): Simulator {
      this.(nextHap := nextHap + 1, haps := haps[nextHap := r])
    }

    function DeleteHaps(hs: seq<nat>): Simulator {
      this.(haps := haps - ToSet(hs))
    }
  }

  /** All the fields that have to do with breakpoints; origLive and origHaps are what setBlockBreaks left in
      the simulator. */
  datatype Breaks = Breaks(
    sim: Simulator, alone: seq<seq<nat>>,
    bpList: seq<nat>, origBpList: seq<nat>, bbHap: seq<nat>, origBbHap: seq<nat>, addrMap: map<nat, Addr>,
    didMissing: seq<Addr>, didMissingBreak: seq<nat>, didMissingHap: seq<nat>,
    origLive: set<nat>, origHaps: map<nat, Range>)

  /** A registered callback; one that is not registered catches nothing. */
  function RangeAt(haps: map<nat, Range>, id: nat): Range {
    if id in haps then haps[id] else Range(1, 0)
  }

  function RangesAt(haps: map<nat, Range>, ids: seq<nat>): (r: seq<Range>)
    ensures |r| == |ids|
  {
    seq(|ids|, i requires 0 <= i < |ids| => RangeAt(haps, ids[i]))
  }

  /** The two lists are the original one followed by the dynamic one. */
  predicate Appended(b: Breaks) {
    b.bpList == b.origBpList + b.didMissingBreak && b.bbHap == b.origBbHap + b.didMissingHap
  }

  /** What is live in the simulator is what setBlockBreaks left there and the dynamic additions, no more and no less. */
  ghost predicate LiveAsListed(b: Breaks) {
    && b.sim.Valid()
    && ToSet(b.origBpList) == b.origLive && ToSet(b.origBbHap) == b.origHaps.Keys
    && b.sim.live == b.origLive + ToSet(b.didMissingBreak) && b.origLive !! ToSet(b.didMissingBreak)
    && b.sim.haps.Keys == b.origHaps.Keys + ToSet(b.didMissingHap) && b.origHaps.Keys !! ToSet(b.didMissingHap)
    && forall h :: h in b.origHaps ==> h in b.sim.haps && b.sim.haps[h] == b.origHaps[h]
  }

  /** So nothing is live in the simulator but the breakpoints and callbacks of the lists. */
  lemma LiveIsListed(b: Breaks)
    requires Appended(b) && LiveAsListed(b)
    ensures b.sim.live == ToSet(b.bpList) && b.sim.haps.Keys == ToSet(b.bbHap)
  {
    ToSetConcat(b.origBpList, b.didMissingBreak);
    ToSetConcat(b.origBbHap, b.didMissingHap);
  }

  lemma ToSetConcat<T>(s: seq<T>, t: seq<T>)
    ensures ToSet(s + t) == ToSet(s) + ToSet(t)
  {
  }

  /** Breakpoints that exist in t lead to the same blocks in u. */
  ghost predicate AddrsKept(t: Breaks, u: Breaks) {
    && t.sim.nextBreak <= u.sim.nextBreak
    && forall bp :: bp in t.addrMap && bp < t.sim.nextBreak ==> bp in u.addrMap && u.addrMap[bp] == t.addrMap[bp]
  }

  /** Between resets each block gets at most one dynamic breakpoint. */
  predicate OneEach(b: Breaks) {
    && (forall i, j :: 0 <= i < j < |b.didMissing| ==> b.didMissing[i] != b.didMissing[j])
    && |b.didMissing| == |b.didMissingBreak|
    && forall i :: 0 <= i < |b.didMissing| ==>
         b.didMissingBreak[i] in b.addrMap && b.addrMap[b.didMissingBreak[i]] == b.didMissing[i]
  }

  /** What holds at every moment, whatever deferred calls are outstanding. */
  ghost predicate Conserved(b: Breaks) {
    && Appended(b) && LiveAsListed(b) && OneEach(b)
    && Increasing(b.bpList)
    && (forall i :: 0 <= i < |b.alone| ==> IsRun(b.alone[i]))
    && Spans(RangesAt(b.origHaps, b.origBbHap)) == b.origBpList
  }

  /** While breakpoints are being added, those from `open` on are one run. */
  ghost predicate OpenRun(b: Breaks, open: nat) {
    |b.origBpList| <= open <= |b.bpList| && (open == |b.bpList| || IsRun(b.bpList[open..]))
  }

  /** The dynamic breakpoints up to an open run at the end: registered ranges, then those about to be
      registered, then the run. */
  ghost predicate CoveredTo(b: Breaks, open: nat) {
    && OpenRun(b, open)
    && Spans(RangesAt(b.sim.haps, b.didMissingHap)) + Concat(b.alone) + b.bpList[open..] == b.didMissingBreak
  }

  /** Ranges registered and deferred spell out exactly the dynamic breakpoints. */
  ghost predicate Covered(b: Breaks) {
    Spans(RangesAt(b.sim.haps, b.didMissingHap)) + Concat(b.alone) == b.didMissingBreak
  }

  lemma CoveredIsCoveredTo(b: Breaks)
    requires Appended(b)
    ensures Covered(b) <==> CoveredTo(b, |b.bpList|)
  {
    assert b.bpList[|b.bpList|..] == [];
  }

  function Empty(firstBreak: nat): Breaks {
    Breaks(Simulator(firstBreak, {}, {}, 0, map[]), [], [], [], [], [], map[], [], [], [], {}, map[])
  }

  lemma EmptyConserves(firstBreak: nat)
    ensures Conserved(Empty(firstBreak)) && Covered(Empty(firstBreak))
  {
  }

  // ---- Adding a dynamic breakpoint ----

  function AddDynamic(b: Breaks, bb: Addr, skipped: nat): Breaks {
    var bp := b.sim.nextBreak + skipped;
    b.(sim := b.sim.NewBreak(skipped), addrMap := b.addrMap[bp := bb], bpList := b.bpList + [bp],
       didMissing := b.didMissing + [bb], didMissingBreak := b.didMissingBreak + [bp])
  }

  lemma BreaksAreLive(b: Breaks)
    requires Appended(b) && LiveAsListed(b)
    ensures ToSet(b.bpList) <= b.sim.live
    ensures forall i :: 0 <= i < |b.bpList| ==> b.bpList[i] < b.sim.nextBreak
  {
    forall i | 0 <= i < |b.bpList| ensures b.bpList[i] in b.sim.live {
      if i < |b.origBpList| {
        assert b.origBpList[i] in ToSet(b.origBpList);
      } else {
        assert b.didMissingBreak[i - |b.origBpList|] in ToSet(b.didMissingBreak);
      }
    }
  }

  lemma ToSetAppend<T>(s: seq<T>, x: T)
    ensures ToSet(s + [x]) == ToSet(s) + {x}
  {
  }

  lemma AddDynamicLive(b: Breaks, bb: Addr, skipped: nat)
    requires Appended(b) && LiveAsListed(b)
    ensures Appended(AddDynamic(b, bb, skipped)) && LiveAsListed(AddDynamic(b, bb, skipped))
  {
    var bp := b.sim.nextBreak + skipped;
    ToSetAppend(b.didMissingBreak, bp);
    assert bp !in b.origLive by { assert bp !in b.sim.live; }
  }

  lemma AddDynamicConserves(b: Breaks, bb: Addr, skipped: nat)
    requires Conserved(b) && bb !in b.didMissing
    ensures Conserved(AddDynamic(b, bb, skipped))
  {
    hide Spans, Span;
    AddDynamicLive(b, bb, skipped);
    BreaksAreLive(b);
    forall i | 0 <= i < |b.didMissingBreak| ensures b.didMissingBreak[i] < b.sim.nextBreak {
      assert b.bpList[|b.origBpList| + i] == b.didMissingBreak[i];
    }
    AddDynamicOneEach(b, bb, skipped);
  }

  lemma AddDynamicOneEach(b: Breaks, bb: Addr, skipped: nat)
    requires OneEach(b) && bb !in b.didMissing
    requires forall i :: 0 <= i < |b.didMissingBreak| ==> b.didMissingBreak[i] < b.sim.nextBreak
    ensures OneEach(AddDynamic(b, bb, skipped))
  {
  }

  /** A number that continues the open run extends it; any other starts a new one after the open run has
      been deferred. */
  lemma AddDynamicCovers(b: Breaks, open: nat, bb: Addr, skipped: nat)
    requires Appended(b) && OpenRun(b, open)
    requires open < |b.bpList| ==> b.sim.nextBreak + skipped == b.bpList[|b.bpList| - 1] + 1
    ensures OpenRun(AddDynamic(b, bb, skipped), open)
    ensures CoveredTo(b, open) <==> CoveredTo(AddDynamic(b, bb, skipped), open)
  {
    hide Spans, Span, Concat;
    var c := AddDynamic(b, bb, skipped);
    var bp := b.sim.nextBreak + skipped;
    assert c.bpList[open..] == b.bpList[open..] + [bp];
    var spelt := Spans(RangesAt(b.sim.haps, b.didMissingHap)) + Concat(b.alone) + b.bpList[open..];
    assert Spans(RangesAt(b.sim.haps, b.didMissingHap)) + Concat(b.alone) + c.bpList[open..] == spelt + [bp];
    SameEnd(spelt, b.didMissingBreak, bp);
  }

  lemma SameEnd(s: seq<nat>, t: seq<nat>, x: nat)
    ensures s == t <==> s + [x] == t + [x]
  {
    if s + [x] == t + [x] {
      assert (s + [x])[..|s|] == s && (t + [x])[..|t|] == t;
    }
  }

  function Defer(b: Breaks, open: nat): Breaks
    requires open <= |b.bpList|
  {
    b.(alone := b.alone + [b.bpList[open..]])
  }

  lemma DeferKeeps(b: Breaks, open: nat)
    requires Conserved(b) && open < |b.bpList| && IsRun(b.bpList[open..])
    ensures Conserved(Defer(b, open)) && OpenRun(Defer(b, open), |b.bpList|)
    ensures CoveredTo(b, open) <==> CoveredTo(Defer(b, open), |b.bpList|)
  {
    hide Spans, Span, Concat;
    ConcatAppend(b.alone, b.bpList[open..]);
    assert b.bpList[|b.bpList|..] == [];
  }

  // ---- addHapAlone ----

  /** The first deferred call is made. */
  function RunFirst(b: Breaks): Breaks
    requires b.alone != [] && b.alone[0] != []
  {
    var hap := b.sim.nextHap;
    b.(sim := b.sim.AddHap(RangeOf(b.alone[0])), alone := b.alone[1..],
       bbHap := b.bbHap + [hap], didMissingHap := b.didMissingHap + [hap])
  }

  lemma RunFirstConserves(b: Breaks)
    requires Conserved(b) && b.alone != []
    ensures IsRun(b.alone[0]) && Conserved(RunFirst(b))
  {
    hide Spans, Span, Concat, RangesAt;
    var hap := b.sim.nextHap;
    ToSetAppend(b.didMissingHap, hap);
    assert hap !in b.sim.haps;
  }

  lemma RunFirstCovers(b: Breaks)
    requires LiveAsListed(b) && b.alone != [] && IsRun(b.alone[0])
    ensures Covered(b) <==> Covered(RunFirst(b))
  {
    hide Spans, Span, Concat;
    var c, hap, r := RunFirst(b), b.sim.nextHap, RangeOf(b.alone[0]);
    assert RangesAt(c.sim.haps, c.didMissingHap) == RangesAt(b.sim.haps, b.didMissingHap) + [r] by {
      forall i | 0 <= i < |b.didMissingHap|
        ensures RangeAt(c.sim.haps, b.didMissingHap[i]) == RangeAt(b.sim.haps, b.didMissingHap[i])
      {
        assert b.didMissingHap[i] in ToSet(b.didMissingHap);
      }
    }
    SpansAppend(RangesAt(b.sim.haps, b.didMissingHap), r);
    RunIsSpan(b.alone[0]);
    ConcatFirst(b.alone);
  }

  // ---- resetCoverage ----

  function Reset(b: Breaks): Breaks
    requires ToSet(b.origBpList) <= b.sim.live - ToSet(b.didMissingBreak)
  {
    var sim := b.sim.DeleteBreaks(b.didMissingBreak).DeleteHaps(b.didMissingHap);
    b.(sim := sim.Enable(b.origBpList), didMissing := [], didMissingBreak := [], didMissingHap := [],
       bpList := b.origBpList, bbHap := b.origBbHap)
  }

  /** A reset leaves live exactly what setBlockBreaks had left live, with every original breakpoint enabled. */
  lemma ResetRestores(b: Breaks)
    requires Conserved(b)
    ensures ToSet(b.origBpList) <= b.sim.live - ToSet(b.didMissingBreak)
    ensures var r := Reset(b);
      && Conserved(r)
      && r.sim.live == b.origLive && r.sim.haps == b.origHaps && ToSet(r.bpList) <= r.sim.enabled
      && r.bpList == b.origBpList && r.bbHap == b.origBbHap && r.didMissing == [] && AddrsKept(b, r)
      && (Covered(r) <==> b.alone == [])
  {
    hide Span;
    var r := Reset(b);
    assert ToSet<nat>([]) == {};
    assert r.sim.haps == b.origHaps;
    assert b.bpList[..|b.origBpList|] == b.origBpList;
    assert RangesAt(r.sim.haps, []) == [];
    if b.alone != [] {
      ConcatFirst(b.alone);
    }
  }

  // ---- What conservation means for the callbacks ----

  /** With no call outstanding, every breakpoint of the table fires exactly one of its callbacks, and
      no callback fires for any other number. */
  lemma CallbacksPartition(b: Breaks)
    requires Conserved(b) && Covered(b) && b.alone == []
    ensures forall bp: nat :: bp in b.bpList <==>
      exists i :: 0 <= i < |b.bbHap| && InRange(bp, RangeAt(b.sim.haps, b.bbHap[i]))
    ensures forall i, j, bp: nat :: 0 <= i < j < |b.bbHap| ==>
      !(InRange(bp, RangeAt(b.sim.haps, b.bbHap[i])) && InRange(bp, RangeAt(b.sim.haps, b.bbHap[j])))
  {
    hide Spans, Span, Concat, LiveAsListed;
    AllRangesSpellList(b);
    var all := RangesAt(b.sim.haps, b.bbHap);
    forall bp: nat
      ensures bp in b.bpList <==> exists i :: 0 <= i < |b.bbHap| && InRange(bp, RangeAt(b.sim.haps, b.bbHap[i]))
    {
      InSpans(all, bp);
      assert forall i :: 0 <= i < |b.bbHap| ==> all[i] == RangeAt(b.sim.haps, b.bbHap[i]);
    }
    forall i, j, bp: nat | 0 <= i < j < |b.bbHap|
      ensures !(InRange(bp, RangeAt(b.sim.haps, b.bbHap[i])) && InRange(bp, RangeAt(b.sim.haps, b.bbHap[j])))
    {
      SpansDisjoint(all, i, j, bp);
    }
  }

  lemma AllRangesSpellList(b: Breaks)
    requires Conserved(b) && Covered(b) && b.alone == []
    ensures Spans(RangesAt(b.sim.haps, b.bbHap)) == b.bpList
  {
    hide Spans, Span;
    var orig, dyn := RangesAt(b.origHaps, b.origBbHap), RangesAt(b.sim.haps, b.didMissingHap);
    var all := RangesAt(b.sim.haps, b.bbHap);
    assert all == orig + dyn by {
      forall i | 0 <= i < |b.origBbHap| ensures all[i] == orig[i] {
        assert b.origBbHap[i] in ToSet(b.origBbHap);
      }
    }
    SpansConcat(orig, dyn);
  }

  lemma SpansOfNone()
    ensures Spans([]) == []
  {
  }

  lemma {:induction false} SpansConcat(a: seq<Range>, c: seq<Range>)
    ensures Spans(a + c) == Spans(a) + Spans(c)
  {
    hide Span, Spans;
    if c == [] {
      assert a + c == a;
      SpansOfNone();
    } else {
      var most, last := c[..|c| - 1], c[|c| - 1];
      SpansConcat(a, most);
      assert a + c == (a + most) + [last];
      SpansAppend(a + most, last);
      assert most + [last] == c;
      SpansAppend(most, last);
    }
  }

  /** Enabling and disabling breakpoints changes nothing here. */
  lemma EnablingConserves(b: Breaks, enabled: set<nat>)
    requires Conserved(b) && enabled <= b.sim.live
    ensures var c := b.(sim := b.sim.(enabled := enabled)); Conserved(c) && (Covered(b) <==> Covered(c))
  {
    hide Spans, Concat;
  }

  lemma SaturationConserves(b: Breaks, bp: nat)
    ensures Conserved(b) ==> Conserved(b.(sim := b.sim.Disable(bp)))
  {
    hide Spans, Concat;
    if Conserved(b) {
      EnablingConserves(b, b.sim.enabled - {bp});
    }
  }

  lemma ReEnablingConserves(b: Breaks, bps: seq<nat>)
    requires ToSet(bps) <= b.sim.live
    ensures Conserved(b) ==> Conserved(b.(sim := b.sim.Enable(bps)))
  {
    hide Spans, Concat;
    if Conserved(b) {
      EnablingConserves(b, b.sim.enabled + ToSet(bps));
    }
  }
}
