/** Runs of the Coverage class: what can happen once the breakpoints are set, what each event does to the
    fields, and when an iteration raises. */
module CoverageRuns {
  import opened Addresses
  import opened Collections
  import opened HapRanges
  import opened BlockBreaks
  import opened BreakTable
  import opened MissingBlocks
  import opened CoverageState
  import EdgeMap

  /** What can happen once the breakpoints are set. An event at an address that is not watched, for which
      the handler's look-up would raise, leaves everything as it was; so does one the simulator cannot deliver. */
  datatype Event =
    | TableStore(physical: int, store: bool, value: int, walk: map<Addr, int>)
    | PageBaseStore(physical: int, store: bool, value: int, walk: map<Addr, int>)
    | PtegStore(physical: int, pteg: int, walk: map<Addr, int>)
    | FirstAlone
    | Iterate
    | Break(bp: nat)
    | Halt
    | StartOver

  /** What came of an event: the block of a hit that was counted, and whether addHapAlone calls were waiting. */
  datatype Seen = Seen(hit: Option<Addr>, waiting: bool)

  /** What stays as it is during a run. */
  datatype Setup = Setup(jumpers: set<Addr>, dead: set<int>, offset: int, aflMap: map<Addr, nat>, missing: Missing)

  /** What a run can be told by, apart from the bytes of the map. */
  datatype View = View(table: Breaks, edges: Option<EdgeMap.Reference>, halted: bool, reEnable: seq<nat>)

  // ---- What each event does ----

  /** The blocks that a page-table update gives a dynamic breakpoint. */
  function Gained(p: Setup, done: seq<Addr>, e: Event): seq<Addr> {
    match e
    case TableStore(physical, store, value, walk) =>
      if Table(physical) in p.missing && store && value != 0
      then Newly(p.missing[Table(physical)], done, Eligible(walk, p.dead, p.offset, false)) else []
    case PageBaseStore(physical, store, value, walk) =>
      if PageBase(physical) in p.missing && store && value != 0
      then Newly(p.missing[PageBase(physical)], done, Eligible(walk, p.dead, p.offset, true)) else []
    case PtegStore(physical, pteg, walk) =>
      if Pteg(pteg) in p.missing && pteg <= physical < pteg + 64
      then Newly(p.missing[Pteg(pteg)], done, Eligible(walk, p.dead, p.offset, true)) else []
    case _ => []
  }

  /** Which blocks those are, for each kind of update: of the list for the entry written, those that the walk
      now resolves, that have no dynamic breakpoint yet and that are no dead spots. A store to a table looks the
      block itself up among the dead spots, the other two its physical address less the load offset. */
  lemma GainedExact(p: Setup, done: seq<Addr>, at: int, physical: int, store: bool, value: int, walk: map<Addr, int>)
    ensures forall bb :: bb in Gained(p, done, TableStore(at, store, value, walk)) <==>
      store && value != 0 && bb in ListAt(p.missing, Table(at)) && bb in walk && bb !in p.dead && bb !in done
    ensures forall bb :: bb in Gained(p, done, PageBaseStore(at, store, value, walk)) <==>
      store && value != 0 && bb in ListAt(p.missing, PageBase(at)) && bb in walk && walk[bb] - p.offset !in p.dead
      && bb !in done
    ensures forall bb :: bb in Gained(p, done, PtegStore(physical, at, walk)) <==>
      at <= physical < at + 64 && bb in ListAt(p.missing, Pteg(at)) && bb in walk && walk[bb] - p.offset !in p.dead
      && bb !in done
  {
    hide Newly;
    NewlyExact(ListAt(p.missing, Table(at)), done, Eligible(walk, p.dead, p.offset, false));
    NewlyExact(ListAt(p.missing, PageBase(at)), done, Eligible(walk, p.dead, p.offset, true));
    NewlyExact(ListAt(p.missing, Pteg(at)), done, Eligible(walk, p.dead, p.offset, true));
  }

  /** The edge of a hit is full already, so its block is ignored from now on. Of a jumper the breakpoint
      stays enabled. */
  predicate Fills(p: Setup, r: EdgeMap.Reference, bb: Addr) {
    bb !in p.jumpers && bb !in r.saturated && bb in EdgeMap.Hit(p.aflMap, r, bb).saturated
  }

  predicate Saturates(p: Setup, v: View, s: Seen) {
    v.edges.Some? && s.hit.Some? && Fills(p, v.edges.value, s.hit.value)
  }

  /** An iteration asks for a breakpoint that has been deleted. */
  predicate Raises(v: View, e: Event) {
    e.Iterate? && !(ToSet(v.reEnable) <= v.table.sim.live)
  }

  /** The tables of breakpoints before and after an event. */
  ghost predicate TableAfter(p: Setup, v: View, e: Event, s: Seen, u: Breaks) {
    var t := v.table;
    match e
    case Iterate => u == t.(sim := t.sim.Enable(StillThere(v.reEnable, t.sim.live)))
    case Break(bp) => u == if Saturates(p, v, s) then t.(sim := t.sim.Disable(bp)) else t
    case FirstAlone => if t.alone == [] then u == t else t.alone[0] != [] && u == RunFirst(t)
    case StartOver => Restored(t, u)
    case Halt => u == t
    case _ => DynamicOnly(t, u) && u.didMissing == t.didMissing + Gained(p, t.didMissing, e)
  }

  /** The breakpoints that wait to be enabled again. */
  function WaitAfter(p: Setup, v: View, e: Event, s: Seen): seq<nat> {
    if e.Iterate? then if Raises(v, e) then v.reEnable else []
    else if e.Break? && Saturates(p, v, s) then v.reEnable + [e.bp]
    else v.reEnable
  }

  /** What an event does to the edge map. */
  function MapAfter(aflMap: map<Addr, nat>, e: Event, hit: Option<Addr>, r: Option<EdgeMap.Reference>)
      : Option<EdgeMap.Reference>
  {
    if e.Iterate? then Some(EdgeMap.FRESH)
    else if r.Some? && hit.Some? then Some(EdgeMap.Hit(aflMap, r.value, hit.value))
    else r
  }

  ghost predicate HitAt(t: Breaks, e: Event, bb: Addr) {
    e.Break? && e.bp < t.sim.nextBreak && e.bp in t.addrMap && t.addrMap[e.bp] == bb
  }

  ghost predicate Handled(p: Setup, v: View, e: Event, s: Seen, w: View) {
    && TableAfter(p, v, e, s, w.table)
    && w.reEnable == WaitAfter(p, v, e, s)
    && (s.waiting <==> v.table.alone != [])
    && (s.hit.Some? <==> e.Break? && e.bp in v.table.bpList && v.edges.Some? && !v.halted && v.table.bbHap != [])
    && (s.hit.Some? ==> HitAt(v.table, e, s.hit.value))
    && w.edges == MapAfter(p.aflMap, e, s.hit, v.edges)
    && w.halted == (if e.Iterate? then false else e.Halt? || v.halted)
    && (Covered(w.table) <==> if e.StartOver? then !s.waiting else Covered(v.table))
  }

  lemma NothingGained(p: Setup, v: View, e: Event, s: Seen)
    requires (e.TableStore? || e.PageBaseStore? || e.PtegStore?) && Gained(p, v.table.didMissing, e) == []
    ensures TableAfter(p, v, e, s, v.table)
  {
    assert v.table.didMissing + [] == v.table.didMissing;
  }

  lemma HandledParts(p: Setup, v: View, e: Event, s: Seen, w: View)
    requires Handled(p, v, e, s, w)
    ensures w.edges == MapAfter(p.aflMap, e, s.hit, v.edges) && (s.hit.Some? ==> HitAt(v.table, e, s.hit.value))
    ensures Covered(w.table) <==> if e.StartOver? then !s.waiting else Covered(v.table)
  {
  }

  /** Nothing that happens later changes what setBlockBreaks recorded, or the blocks of breakpoints. */
  lemma TableKept(p: Setup, v: View, e: Event, s: Seen, u: Breaks)
    requires TableAfter(p, v, e, s, u)
    ensures SameOriginal(v.table, u) && AddrsKept(v.table, u)
  {
    hide Gained, Saturates, StillThere, NumbersKept;
  }

  /** The iteration that raises clears the map, enables the breakpoints before the one that is gone, and
      leaves the whole list waiting. */
  ghost predicate StopsAt(p: Setup, v: View, e: Event, w: View) {
    Raises(v, e) && Handled(p, v, e, Seen(None, v.table.alone != []), w)
  }

  lemma HandledRaise(p: Setup, v: View, e: Event, s: Seen, w: View)
    requires Handled(p, v, e, s, w) && Raises(v, e)
    ensures StopsAt(p, v, e, w)
  {
  }

  // ---- Hits, and callbacks in step with the breakpoints ----

  /** The blocks hit since the last iteration began; None while none has. */
  function HitsOver(start: Option<seq<Addr>>, events: seq<Event>, seen: seq<Seen>): Option<seq<Addr>>
    requires |seen| == |events|
  {
    if events == [] then start
    else
      var n := |events| - 1;
      var before := HitsOver(start, events[..n], seen[..n]);
      if events[n].Iterate? then Some([])
      else if before.Some? && seen[n].hit.Some? then Some(before.value + [seen[n].hit.value])
      else before
  }

  /** Whether the callbacks match the breakpoints: a reset settles it, and nothing else changes it. */
  function InStep(start: bool, events: seq<Event>, seen: seq<Seen>): bool
    requires |seen| == |events|
  {
    if events == [] then start
    else
      var n := |events| - 1;
      if events[n].StartOver? then !seen[n].waiting else InStep(start, events[..n], seen[..n])
  }

  function ReplayOf(aflMap: map<Addr, nat>, hits: Option<seq<Addr>>): Option<EdgeMap.Reference> {
    if hits.Some? then Some(EdgeMap.Replay(aflMap, hits.value)) else None
  }

  lemma ReplayIsSome(aflMap: map<Addr, nat>, hits: Option<seq<Addr>>)
    ensures hits.Some? ==> ReplayOf(aflMap, hits) == Some(EdgeMap.Replay(aflMap, hits.value))
  {
  }

  lemma HitsAreLogged(aflMap: map<Addr, nat>, hits: Option<seq<Addr>>)
    ensures hits.Some? ==>
      ReplayOf(aflMap, hits).Some?
      && EdgeMap.Logged(ReplayOf(aflMap, hits).value, aflMap, EdgeMap.Accepted(aflMap, hits.value))
  {
    hide EdgeMap.Logged, EdgeMap.Accepted, EdgeMap.Replay;
    if hits.Some? {
      EdgeMap.ReplayIsLogged(aflMap, hits.value);
    }
  }

  lemma OverNext(aflMap: map<Addr, nat>, start: Option<seq<Addr>>, covered: bool, events: seq<Event>, seen: seq<Seen>,
      e: Event, s: Seen)
    requires |seen| == |events|
    ensures ReplayOf(aflMap, HitsOver(start, events + [e], seen + [s])) ==
      MapAfter(aflMap, e, s.hit, ReplayOf(aflMap, HitsOver(start, events, seen)))
    ensures InStep(covered, events + [e], seen + [s]) ==
      if e.StartOver? then !s.waiting else InStep(covered, events, seen)
  {
    assert (events + [e])[..|events|] == events && (seen + [s])[..|seen|] == seen;
    var before := HitsOver(start, events, seen);
    if before.Some? && s.hit.Some? {
      EdgeMap.ReplayNext(aflMap, before.value, s.hit.value);
    }
  }

  /** The hits reported are those of the blocks that the breakpoints still stand for. */
  ghost predicate HitsMatch(t: Breaks, events: seq<Event>, seen: seq<Seen>)
    requires |seen| <= |events|
  {
    forall k :: 0 <= k < |seen| && seen[k].hit.Some? ==>
      events[k].Break? && events[k].bp < t.sim.nextBreak && events[k].bp in t.addrMap
        && t.addrMap[events[k].bp] == seen[k].hit.value
  }

  lemma HitsMatchKept(t: Breaks, u: Breaks, events: seq<Event>, seen: seq<Seen>)
    requires |seen| <= |events| && HitsMatch(t, events, seen) && AddrsKept(t, u)
    ensures HitsMatch(u, events, seen)
  {
  }

  lemma HitsMatchNext(t: Breaks, u: Breaks, events: seq<Event>, seen: seq<Seen>, s: Seen)
    requires |seen| < |events| && HitsMatch(t, events, seen) && AddrsKept(t, u)
    requires s.hit.Some? ==> HitAt(t, events[|seen|], s.hit.value)
    ensures HitsMatch(u, events, seen + [s])
  {
  }

  // ---- Whole runs ----

  ghost predicate InOrderAt(v: View) {
    Conserved(v.table) && NumbersUsed(v.table, v.reEnable)
  }

  /** A run over the first events: each does what Handled says, and none of them raises. */
  ghost predicate History(p: Setup, events: seq<Event>, seen: seq<Seen>, views: seq<View>) {
    && |seen| <= |events| && |views| == |seen| + 1
    && (forall k :: 0 <= k < |views| ==> InOrderAt(views[k]))
    && forall k :: 0 <= k < |seen| ==>
         Handled(p, views[k], events[k], seen[k], views[k + 1]) && !Raises(views[k], events[k])
  }

  lemma HistoryBegins(p: Setup, events: seq<Event>, v: View, start: Option<seq<Addr>>, covered: bool)
    requires InOrderAt(v)
    ensures History(p, events, [], [v])
    ensures HitsOver(start, events[..0], []) == start && InStep(covered, events[..0], []) == covered
      && HitsMatch(v.table, events, [])
  {
  }

  lemma HistoryNext(p: Setup, events: seq<Event>, seen: seq<Seen>, views: seq<View>, s: Seen, w: View)
    requires History(p, events, seen, views) && |seen| < |events| && InOrderAt(w)
    requires Handled(p, views[|seen|], events[|seen|], s, w) && !Raises(views[|seen|], events[|seen|])
    ensures History(p, events, seen + [s], views + [w])
  {
    hide InOrderAt, Handled, Raises;
  }

  lemma HistoriesJoin(p: Setup, events: seq<Event>, seen: seq<Seen>, views: seq<View>, more: seq<Event>,
      seenMore: seq<Seen>, viewsMore: seq<View>)
    requires History(p, events, seen, views) && |seen| == |events|
    requires History(p, more, seenMore, viewsMore) && viewsMore[0] == views[|seen|]
    ensures History(p, events + more, seen + seenMore, views + viewsMore[1..])
  {
    hide InOrderAt, Handled, Raises;
    var all := views + viewsMore[1..];
    forall k | 0 <= k < |viewsMore| ensures all[|seen| + k] == viewsMore[k] {}
    forall k | 0 <= k < |seen + seenMore|
      ensures Handled(p, all[k], (events + more)[k], (seen + seenMore)[k], all[k + 1])
        && !Raises(all[k], (events + more)[k])
    {
      if k >= |seen| {
        assert all[k] == viewsMore[k - |seen|] && all[k + 1] == viewsMore[k - |seen| + 1];
      }
    }
  }

  /** Whether an iteration began, or a reset was made, from the j-th event up to the k-th. */
  ghost predicate Iterates(events: seq<Event>, j: nat, k: nat) {
    exists m: nat :: j <= m < k <= |events| && events[m].Iterate?
  }

  ghost predicate Resets(events: seq<Event>, j: nat, k: nat) {
    exists m: nat :: j <= m < k <= |events| && events[m].StartOver?
  }

  /** A reset deletes the dynamic breakpoints; nothing else deletes any, and no number comes back. */
  lemma StepLive(p: Setup, v: View, e: Event, s: Seen, w: View)
    requires InOrderAt(v) && InOrderAt(w) && Handled(p, v, e, s, w)
    ensures w.table.origBpList == v.table.origBpList && v.table.sim.nextBreak <= w.table.sim.nextBreak
    ensures forall bp :: bp < v.table.sim.nextBreak ==>
      (bp in w.table.sim.live <==> bp in v.table.sim.live && (e.StartOver? ==> bp in v.table.origBpList))
  {
    hide Spans, Increasing, OneEach, Appended, Gained, Saturates, IsRun;
    forall bp ensures bp in ToSet(v.table.origBpList) <==> bp in v.table.origBpList {}
  }

  lemma {:induction false} LiveSince(p: Setup, events: seq<Event>, seen: seq<Seen>, views: seq<View>, bp: nat,
      j: nat, k: nat)
    requires History(p, events, seen, views) && j <= k <= |seen| && bp < views[j].table.sim.nextBreak
    ensures views[k].table.origBpList == views[j].table.origBpList && bp < views[k].table.sim.nextBreak
    ensures bp in views[k].table.sim.live <==>
      bp in views[j].table.sim.live && (Resets(events, j, k) ==> bp in views[j].table.origBpList)
  {
    hide InOrderAt, Handled, Raises;
    if j < k {
      LiveSince(p, events, seen, views, bp, j, k - 1);
      StepLive(p, views[k - 1], events[k - 1], seen[k - 1], views[k]);
      assert Resets(events, j, k) <==> Resets(events, j, k - 1) || events[k - 1].StartOver?;
    }
  }

  /** The edge map at every moment is that of the hits since the last iteration began. */
  lemma {:induction false} EdgesAreHits(p: Setup, start: Option<seq<Addr>>, events: seq<Event>, seen: seq<Seen>,
      views: seq<View>, k: nat)
    requires History(p, events, seen, views) && k <= |seen| && views[0].edges == ReplayOf(p.aflMap, start)
    ensures views[k].edges == ReplayOf(p.aflMap, HitsOver(start, events[..k], seen[..k]))
  {
    hide InOrderAt, Handled, Raises, HitsOver, ReplayOf, MapAfter;
    if k == 0 {
      HitsOverNone(start, events[..0], seen[..0]);
    } else {
      EdgesAreHits(p, start, events, seen, views, k - 1);
      HandledParts(p, views[k - 1], events[k - 1], seen[k - 1], views[k]);
      OverNext(p.aflMap, start, true, events[..k - 1], seen[..k - 1], events[k - 1], seen[k - 1]);
      assert events[..k] == events[..k - 1] + [events[k - 1]] && seen[..k] == seen[..k - 1] + [seen[k - 1]];
    }
  }

  lemma HitsOverNone(start: Option<seq<Addr>>, events: seq<Event>, seen: seq<Seen>)
    requires events == [] && seen == []
    ensures HitsOver(start, events, seen) == start
  {
  }

  /** The j-th event is a hit that saturates its block, told by the hits alone. */
  ghost predicate Saturating(p: Setup, start: Option<seq<Addr>>, events: seq<Event>, seen: seq<Seen>, j: nat)
    requires j < |seen| <= |events|
  {
    var before := HitsOver(start, events[..j], seen[..j]);
    before.Some? && seen[j].hit.Some? && Fills(p, EdgeMap.Replay(p.aflMap, before.value), seen[j].hit.value)
  }

  lemma SaturatingIsSaturates(p: Setup, start: Option<seq<Addr>>, events: seq<Event>, seen: seq<Seen>,
      views: seq<View>, j: nat)
    requires History(p, events, seen, views) && j < |seen| && views[0].edges == ReplayOf(p.aflMap, start)
    ensures Saturates(p, views[j], seen[j]) <==> Saturating(p, start, events, seen, j)
    ensures Saturating(p, start, events, seen, j) ==>
      events[j].Break? && events[j].bp < views[j].table.sim.nextBreak && events[j].bp in views[j].table.sim.live
  {
    hide HitsOver, Fills, EdgeMap.Replay, Spans, Raises, TableAfter, IsRun, Increasing, OneEach;
    EdgesAreHits(p, start, events, seen, views, j);
    assert Handled(p, views[j], events[j], seen[j], views[j + 1]);
    assert InOrderAt(views[j]);
    if Saturating(p, start, events, seen, j) {
      BreaksAreLive(views[j].table);
      assert events[j].bp in ToSet(views[j].table.bpList);
    }
  }

  /** The j-th event saturates the block of this breakpoint, and no iteration has begun since. */
  ghost predicate WaitsFrom(p: Setup, start: Option<seq<Addr>>, events: seq<Event>, seen: seq<Seen>, bp: nat,
      j: nat, k: nat)
    requires k <= |seen| <= |events|
  {
    j < k && Saturating(p, start, events, seen, j) && events[j] == Break(bp) && !Iterates(events, j, k)
  }

  lemma WaitingNext(p: Setup, start: Option<seq<Addr>>, events: seq<Event>, seen: seq<Seen>, views: seq<View>,
      bp: nat, n: nat)
    requires History(p, events, seen, views) && n < |seen| && views[0].edges == ReplayOf(p.aflMap, start)
    ensures bp in views[n + 1].reEnable <==>
      (bp in views[n].reEnable && !events[n].Iterate?)
      || (Saturating(p, start, events, seen, n) && events[n] == Break(bp))
  {
    hide InOrderAt, Saturating, Saturates, TableAfter, HitsOver;
    SaturatingIsSaturates(p, start, events, seen, views, n);
    assert Handled(p, views[n], events[n], seen[n], views[n + 1]) && !Raises(views[n], events[n]);
  }

  /** What waits to be enabled are the breakpoints that saturated since the last iteration began. */
  lemma {:induction false} WaitingSince(p: Setup, start: Option<seq<Addr>>, events: seq<Event>, seen: seq<Seen>,
      views: seq<View>, bp: nat, k: nat)
    requires History(p, events, seen, views) && k <= |seen| && views[0].edges == ReplayOf(p.aflMap, start)
    ensures bp in views[k].reEnable <==>
      (bp in views[0].reEnable && !Iterates(events, 0, k)) || exists j :: WaitsFrom(p, start, events, seen, bp, j, k)
  {
    hide InOrderAt, Handled, Raises, Saturating, HitsOver, ReplayOf;
    if k > 0 {
      WaitingSince(p, start, events, seen, views, bp, k - 1);
      WaitingNext(p, start, events, seen, views, bp, k - 1);
      forall j: nat | j < k
        ensures Iterates(events, j, k) <==> Iterates(events, j, k - 1) || events[k - 1].Iterate?
        ensures WaitsFrom(p, start, events, seen, bp, j, k) <==>
          (WaitsFrom(p, start, events, seen, bp, j, k - 1) && !events[k - 1].Iterate?)
          || (j == k - 1 && Saturating(p, start, events, seen, j) && events[j] == Break(bp))
      {}
    }
  }

  /** The j-th event saturates a dynamic breakpoint, a reset follows, and no iteration has begun since. */
  ghost predicate StrandedFrom(p: Setup, start: Option<seq<Addr>>, events: seq<Event>, seen: seq<Seen>,
      original: seq<nat>, j: nat, k: nat)
    requires k <= |seen| <= |events|
  {
    && j < k && Saturating(p, start, events, seen, j) && events[j].Break? && events[j].bp !in original
    && Resets(events, j, k) && !Iterates(events, j, k)
  }

  /** A breakpoint that was waiting when the run began is gone, and no iteration has begun since. */
  ghost predicate StrandedBefore(events: seq<Event>, first: View, k: nat) {
    && !Iterates(events, 0, k)
    && exists bp :: bp in first.reEnable
         && (bp !in first.table.sim.live || (bp !in first.table.origBpList && Resets(events, 0, k)))
  }

  ghost predicate Stranded(p: Setup, start: Option<seq<Addr>>, events: seq<Event>, seen: seq<Seen>, first: View,
      k: nat)
    requires k <= |seen| <= |events|
  {
    StrandedBefore(events, first, k)
    || exists j :: StrandedFrom(p, start, events, seen, first.table.origBpList, j, k)
  }

  /** An iteration raises exactly if a dynamic breakpoint had saturated since the last iteration began, and
      a reset has followed. */
  lemma RaisesIffStranded(p: Setup, start: Option<seq<Addr>>, events: seq<Event>, seen: seq<Seen>,
      views: seq<View>, k: nat)
    requires History(p, events, seen, views) && k <= |seen| && k < |events| && events[k].Iterate?
    requires views[0].edges == ReplayOf(p.aflMap, start)
    ensures Raises(views[k], events[k]) <==> Stranded(p, start, events, seen, views[0], k)
  {
    hide InOrderAt, Handled, Saturating, HitsOver, ReplayOf, Resets, Iterates, WaitsFrom, StrandedFrom;
    hide StrandedBefore;
    if Raises(views[k], events[k]) {
      var bp :| bp in views[k].reEnable && bp !in views[k].table.sim.live;
      GoneIsStranded(p, start, events, seen, views, bp, k);
    }
    if StrandedBefore(events, views[0], k) {
      BeforeIsGone(p, start, events, seen, views, k);
    }
    if j :| StrandedFrom(p, start, events, seen, views[0].table.origBpList, j, k) {
      StrandedIsGone(p, start, events, seen, views, j, k);
    }
  }

  lemma GoneIsStranded(p: Setup, start: Option<seq<Addr>>, events: seq<Event>, seen: seq<Seen>, views: seq<View>,
      bp: nat, k: nat)
    requires History(p, events, seen, views) && k <= |seen| && views[0].edges == ReplayOf(p.aflMap, start)
    requires bp in views[k].reEnable && bp !in views[k].table.sim.live
    ensures Stranded(p, start, events, seen, views[0], k)
  {
    hide InOrderAt, Handled, Saturating, HitsOver, ReplayOf, Resets, Iterates;
    WaitingSince(p, start, events, seen, views, bp, k);
    if j :| WaitsFrom(p, start, events, seen, bp, j, k) {
      SaturatingIsSaturates(p, start, events, seen, views, j);
      LiveSince(p, events, seen, views, bp, j, k);
      OriginalSame(p, events, seen, views, j);
      assert StrandedFrom(p, start, events, seen, views[0].table.origBpList, j, k);
    } else {
      WaitingIsUsed(p, events, seen, views, bp);
      LiveSince(p, events, seen, views, bp, 0, k);
    }
  }

  lemma WaitingIsUsed(p: Setup, events: seq<Event>, seen: seq<Seen>, views: seq<View>, bp: nat)
    requires History(p, events, seen, views) && bp in views[0].reEnable
    ensures bp < views[0].table.sim.nextBreak
  {
    hide Conserved, Handled;
    assert InOrderAt(views[0]);
  }

  lemma OriginalSame(p: Setup, events: seq<Event>, seen: seq<Seen>, views: seq<View>, j: nat)
    requires History(p, events, seen, views) && j <= |seen|
    ensures views[j].table.origBpList == views[0].table.origBpList
  {
    hide Handled, InOrderAt;
    if j > 0 {
      OriginalSame(p, events, seen, views, j - 1);
      StepLive(p, views[j - 1], events[j - 1], seen[j - 1], views[j]);
    }
  }

  lemma BeforeIsGone(p: Setup, start: Option<seq<Addr>>, events: seq<Event>, seen: seq<Seen>, views: seq<View>,
      k: nat)
    requires History(p, events, seen, views) && k <= |seen| && views[0].edges == ReplayOf(p.aflMap, start)
    requires StrandedBefore(events, views[0], k)
    ensures !(ToSet(views[k].reEnable) <= views[k].table.sim.live)
  {
    hide InOrderAt, Handled, Saturating, HitsOver, ReplayOf, Resets, Iterates, WaitsFrom;
    var first := views[0];
    var bp :| bp in first.reEnable
      && (bp !in first.table.sim.live || (bp !in first.table.origBpList && Resets(events, 0, k)));
    WaitingSince(p, start, events, seen, views, bp, k);
    WaitingIsUsed(p, events, seen, views, bp);
    LiveSince(p, events, seen, views, bp, 0, k);
    assert bp in ToSet(views[k].reEnable);
  }

  lemma StrandedIsGone(p: Setup, start: Option<seq<Addr>>, events: seq<Event>, seen: seq<Seen>, views: seq<View>,
      j: nat, k: nat)
    requires History(p, events, seen, views) && k <= |seen| && views[0].edges == ReplayOf(p.aflMap, start)
    requires StrandedFrom(p, start, events, seen, views[0].table.origBpList, j, k)
    ensures !(ToSet(views[k].reEnable) <= views[k].table.sim.live)
  {
    hide InOrderAt, Handled, Saturating, HitsOver, ReplayOf, Resets, Iterates;
    var bp := events[j].bp;
    assert WaitsFrom(p, start, events, seen, bp, j, k);
    WaitingSince(p, start, events, seen, views, bp, k);
    SaturatingIsSaturates(p, start, events, seen, views, j);
    LiveSince(p, events, seen, views, bp, j, k);
    OriginalSame(p, events, seen, views, j);
    assert bp in ToSet(views[k].reEnable);
  }

  /** Without a reset no iteration raises, unless a breakpoint that waited from the outset was gone. */
  lemma NoResetNoRaise(p: Setup, start: Option<seq<Addr>>, events: seq<Event>, seen: seq<Seen>, first: View, k: nat)
    requires k <= |seen| <= |events| && Stranded(p, start, events, seen, first, k)
    requires ToSet(first.reEnable) <= first.table.sim.live
    ensures StartOver in events
  {
    hide Saturating;
    if StrandedBefore(events, first, k) {
      var bp :| bp in first.reEnable
        && (bp !in first.table.sim.live || (bp !in first.table.origBpList && Resets(events, 0, k)));
      assert bp in ToSet(first.reEnable);
    }
  }

  /** A run that ends at an iteration that raises, or with the last event. */
  lemma OnlyStrandedRaise(p: Setup, start: Option<seq<Addr>>, events: seq<Event>, seen: seq<Seen>, views: seq<View>,
      last: View)
    requires History(p, events, seen, views) && views[0].edges == ReplayOf(p.aflMap, start)
    requires |seen| < |events| ==> StopsAt(p, views[|seen|], events[|seen|], last)
    ensures forall k :: 0 <= k <= |seen| && k < |events| && events[k].Iterate? ==>
      (k == |seen| <==> Stranded(p, start, events, seen, views[0], k))
    ensures ToSet(views[0].reEnable) <= views[0].table.sim.live && StartOver !in events ==> |seen| == |events|
  {
    hide InOrderAt, Handled, Stranded;
    forall k | 0 <= k <= |seen| && k < |events| && events[k].Iterate?
      ensures k == |seen| <==> Stranded(p, start, events, seen, views[0], k)
    {
      RaisesIffStranded(p, start, events, seen, views, k);
    }
    if ToSet(views[0].reEnable) <= views[0].table.sim.live && |seen| < |events| {
      NoResetNoRaise(p, start, events, seen, views[0], |seen|);
    }
  }
}
