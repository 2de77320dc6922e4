/** The FDTrack class of showFDs.py and the loop that feeds it the events of a trace. */
module FdTrack {
  import opened Collections
  import opened FdTimeline

  // ---- Setting many items one by one ----

  ghost predicate Sound(x: FdIndex) {
    Agree(x.dict, x.recent)
  }

  ghost function Now(x: FdIndex): Table {
    TableOf(x.dict, x.recent)
  }

  /** From x0 to x exactly these items have been set, at one cycle. */
  ghost predicate Did(x0: FdIndex, x: FdIndex, changes: Table, cycle: int) {
    && Sound(x0) && Sound(x)
    && x.dict == Changed(x0.dict, changes, cycle) && x.recent == ChangedRecent(x0.recent, changes, cycle)
    && Now(x) == Now(x0) + changes
  }

  lemma DidNothing(x: FdIndex, cycle: int)
    requires Sound(x)
    ensures Did(x, x, map[], cycle)
  {
    hide TableOf;
    assert Now(x) + map[] == Now(x);
    forall k ensures k in x.dict ==> Changed(x.dict, map[], cycle)[k] == x.dict[k] {
      ChangedAt(x.dict, map[], cycle, k);
    }
  }

  lemma DidMore(x0: FdIndex, x: FdIndex, a: Table, y: FdIndex, b: Table, cycle: int)
    requires Did(x0, x, a, cycle) && Did(x, y, b, cycle)
    ensures Did(x0, y, a + b, cycle)
  {
    hide TableOf, Changed, ChangedRecent, Agree;
    ChangedTwice(x0.dict, a, b, cycle);
    ChangedRecentTwice(x0.recent, a, b, cycle);
    assert Now(x0) + a + b == Now(x0) + (a + b);
  }

  lemma DidSound(x0: FdIndex, x: FdIndex, changes: Table, cycle: int)
    requires Did(x0, x, changes, cycle)
    ensures Sound(x0) && Sound(x) && Now(x) == Now(x0) + changes
  {
  }

  lemma SoundKeys(x: FdIndex)
    requires Sound(x)
    ensures Now(x).Keys == x.dict.Keys
  {
  }

  /** The part of the changes that concerns these keys. */
  ghost function Among(changes: Table, keys: set<Key>): Table {
    map k | k in changes && k in keys :: changes[k]
  }

  /** A loop over all keys has done the changes of the keys that are not left. */
  ghost predicate Doing(x0: FdIndex, x: FdIndex, changes: Table, left: set<Key>, cycle: int) {
    left <= x0.dict.Keys && Did(x0, x, Among(changes, x0.dict.Keys - left), cycle)
  }

  lemma DoingStarts(x: FdIndex, changes: Table, cycle: int)
    requires Sound(x)
    ensures Doing(x, x, changes, x.dict.Keys, cycle)
  {
    hide Did;
    DidNothing(x, cycle);
    assert Among(changes, x.dict.Keys - x.dict.Keys) == map[];
  }

  lemma DoingReads(x0: FdIndex, x: FdIndex, changes: Table, left: set<Key>, cycle: int, k: Key)
    requires Doing(x0, x, changes, left, cycle) && k in left
    ensures Sound(x) && k in x.dict && k in Now(x) && k in Now(x0) && Now(x)[k] == Now(x0)[k]
  {
  }

  lemma DoingNext(x0: FdIndex, x: FdIndex, changes: Table, left: set<Key>, cycle: int, k: Key, y: FdIndex)
    requires Doing(x0, x, changes, left, cycle) && k in left
    requires if k in changes then Did(x, y, map[k := changes[k]], cycle) else y == x
    ensures Doing(x0, y, changes, left - {k}, cycle)
  {
    hide Did;
    var done := x0.dict.Keys - left;
    assert x0.dict.Keys - (left - {k}) == done + {k};
    if k in changes {
      DidMore(x0, x, Among(changes, done), y, map[k := changes[k]], cycle);
      assert Among(changes, done) + map[k := changes[k]] == Among(changes, done + {k});
    } else {
      assert Among(changes, done) == Among(changes, done + {k});
    }
  }

  lemma DoingEnds(x0: FdIndex, x: FdIndex, changes: Table, cycle: int)
    requires Doing(x0, x, changes, {}, cycle) && changes.Keys <= x0.dict.Keys
    ensures Did(x0, x, changes, cycle)
  {
    hide Did;
    assert Among(changes, x0.dict.Keys - {}) == changes;
  }

  // ---- The loops of clone and exit_group, which set several items for one key ----

  ghost predicate Cloning(x0: FdIndex, x: FdIndex, tid: Tid, newTid: Tid, left: set<Key>, cycle: int) {
    left <= x0.dict.Keys && Did(x0, x, Clones(Now(x0), tid, newTid, x0.dict.Keys - left), cycle)
  }

  lemma CloningStarts(x: FdIndex, tid: Tid, newTid: Tid, cycle: int)
    requires Sound(x)
    ensures Cloning(x, x, tid, newTid, x.dict.Keys, cycle)
  {
    hide Did;
    DidNothing(x, cycle);
    assert Clones(Now(x), tid, newTid, x.dict.Keys - x.dict.Keys) == map[];
  }

  lemma CloningReads(x0: FdIndex, x: FdIndex, tid: Tid, newTid: Tid, left: set<Key>, cycle: int, k: Key)
    requires Cloning(x0, x, tid, newTid, left, cycle) && k in left
    ensures Sound(x) && k in x.dict && k in Now(x) && k in Now(x0) && (k.tid == tid ==> Now(x)[k] == Now(x0)[k])
  {
    hide Clones, Handed, Changed, ChangedRecent;
    ClonesAt(Now(x0), tid, newTid, x0.dict.Keys - left, k);
  }

  lemma CloningEnds(x0: FdIndex, x: FdIndex, tid: Tid, newTid: Tid, cycle: int)
    requires Cloning(x0, x, tid, newTid, {}, cycle)
    ensures Did(x0, x, Clones(Now(x0), tid, newTid, x0.dict.Keys), cycle)
  {
    hide Did, Clones;
    assert x0.dict.Keys - {} == x0.dict.Keys;
  }

  lemma CloningNext(x0: FdIndex, x: FdIndex, tid: Tid, newTid: Tid, left: set<Key>, cycle: int, k: Key, y: FdIndex)
    requires Cloning(x0, x, tid, newTid, left, cycle) && k in left
    requires Did(x, y, Clones(Now(x0), tid, newTid, {k}), cycle)
    ensures Cloning(x0, y, tid, newTid, left - {k}, cycle)
  {
    hide Did, Handed;
    var done, t := x0.dict.Keys - left, Now(x0);
    DidMore(x0, x, Clones(t, tid, newTid, done), y, Clones(t, tid, newTid, {k}), cycle);
    assert x0.dict.Keys - (left - {k}) == done + {k};
    ClonesAppend(t, tid, newTid, done, k);
  }

  lemma ClonesAppend(t: Table, tid: Tid, newTid: Tid, done: set<Key>, k: Key)
    requires k !in done
    ensures Clones(t, tid, newTid, done) + Clones(t, tid, newTid, {k}) == Clones(t, tid, newTid, done + {k})
  {
    hide Handed, Clones;
    var a, b, c := Clones(t, tid, newTid, done), Clones(t, tid, newTid, {k}), Clones(t, tid, newTid, done + {k});
    forall j ensures (j in c <==> j in a || j in b) && (j in c ==> c[j] == if j in b then b[j] else a[j]) {
      ClonesAt(t, tid, newTid, done, j);
      ClonesAt(t, tid, newTid, {k}, j);
      ClonesAt(t, tid, newTid, done + {k}, j);
    }
  }

  /** Clones for one key, as the loop body sets them. */
  lemma CloneOne(t: Table, tid: Tid, newTid: Tid, k: Key)
    requires k in t
    ensures Clones(t, tid, newTid, {k}) ==
      if k.tid != tid || t[k] == None then map[]
      else if t[k].value.Pipe? then map[k := Some(Handed(t[k].value, tid, newTid))] + map[Key(k.fd, newTid) := t[k]]
      else map[Key(k.fd, newTid) := t[k]]
  {
    hide Handed, Clones;
    var child := Key(k.fd, newTid);
    assert Key(child.fd, tid) == k || k.tid != tid;
    forall j
      ensures j in Clones(t, tid, newTid, {k}) <==>
        k.tid == tid && t[k].Some? && (j == child || (j == k && t[k].value.Pipe?))
    {
      ClonesAt(t, tid, newTid, {k}, j);
    }
    ClonesAt(t, tid, newTid, {k}, child);
    ClonesAt(t, tid, newTid, {k}, k);
  }

  ghost predicate Exiting(x0: FdIndex, x: FdIndex, tid: Tid, left: set<Key>, cycle: int) {
    left <= x0.dict.Keys && Did(x0, x, Exits(Now(x0), tid, x0.dict.Keys - left), cycle)
  }

  lemma ExitingStarts(x: FdIndex, tid: Tid, cycle: int)
    requires Sound(x)
    ensures Exiting(x, x, tid, x.dict.Keys, cycle)
  {
    hide Did;
    DidNothing(x, cycle);
    assert Exits(Now(x), tid, x.dict.Keys - x.dict.Keys) == map[];
  }

  /** Closing one descriptor of the thread, with the other ends of its pipes. */
  lemma ExitingNext(x0: FdIndex, x: FdIndex, tid: Tid, left: set<Key>, cycle: int, k: Key, y: FdIndex)
    requires Exiting(x0, x, tid, left, cycle) && k in left
    requires if k.tid == tid
      then Did(x, y, map[k := None] + AllNone(PipesTo(Now(x) + map[k := None], tid, k.fd)), cycle) else y == x
    ensures Exiting(x0, y, tid, left - {k}, cycle)
  {
    hide AllNone, Exits, Did, PipesTo, TableOf;
    var done, t := x0.dict.Keys - left, Now(x0);
    assert x0.dict.Keys - (left - {k}) == done + {k};
    DidSound(x0, x, Exits(t, tid, done), cycle);
    SoundKeys(x0);
    if k.tid == tid {
      var more := map[k := None] + AllNone(PipesTo(Now(x) + map[k := None], tid, k.fd));
      ExitsAppend(t, tid, done, k);
      DidMore(x0, x, Exits(t, tid, done), y, more, cycle);
    } else {
      ExitsOther(t, tid, done, k);
    }
  }

  lemma ExitingSound(x0: FdIndex, x: FdIndex, tid: Tid, left: set<Key>, cycle: int)
    requires Exiting(x0, x, tid, left, cycle)
    ensures Sound(x)
  {
  }

  lemma ExitingEnds(x0: FdIndex, x: FdIndex, tid: Tid, cycle: int)
    requires Exiting(x0, x, tid, {}, cycle)
    ensures Did(x0, x, Exits(Now(x0), tid, x0.dict.Keys), cycle)
  {
    hide Did, Exits;
    assert x0.dict.Keys - {} == x0.dict.Keys;
  }

  lemma ExitsOther(t: Table, tid: Tid, done: set<Key>, k: Key)
    requires k.tid != tid
    ensures Exits(t, tid, done) == Exits(t, tid, done + {k})
  {
  }

  lemma EndedNext(t: Table, tid: Tid, done: set<Key>, k: Key)
    requires k in t && k.tid == tid
    ensures Ended(t, tid, done + {k}) == Ended(t, tid, done) + {k} + PipesTo(t, tid, k.fd)
  {
  }

  lemma PipesWhileExiting(t: Table, tid: Tid, done: set<Key>, k: Key)
    requires k !in done && k.tid == tid
    ensures PipesTo(t + Exits(t, tid, done) + map[k := None], tid, k.fd) == PipesTo(t, tid, k.fd)
  {
  }

  lemma ExitsAppend(t: Table, tid: Tid, done: set<Key>, k: Key)
    requires k !in done && k in t && k.tid == tid
    ensures var others := PipesTo(t + Exits(t, tid, done) + map[k := None], tid, k.fd);
      Exits(t, tid, done) + (map[k := None] + AllNone(others)) == Exits(t, tid, done + {k})
  {
    hide Ended, PipesTo;
    PipesWhileExiting(t, tid, done, k);
    EndedNext(t, tid, done, k);
  }

  // ---- show ----

  ghost function ShownOf(dict: Dict, keys: set<Key>, want: int): map<Key, Item> {
    map k | k in keys && k in dict && LastBefore(dict[k], want).Some? :: LastBefore(dict[k], want).value
  }

  lemma ShownNext(dict: Dict, keys: set<Key>, want: int, k: Key)
    requires k in dict
    ensures var item := LastBefore(dict[k], want);
      ShownOf(dict, keys + {k}, want) == if item.Some? then ShownOf(dict, keys, want)[k := item.value]
        else ShownOf(dict, keys - {k}, want)
    ensures k !in keys ==> keys - {k} == keys
  {
    hide LastBefore;
  }

  lemma ShownAll(dict: Dict, want: int)
    ensures ShownOf(dict, dict.Keys, want) == Shown(dict, want)
    ensures ShownOf(dict, dict.Keys - dict.Keys, want) == map[]
  {
    hide LastBefore;
  }

  // ---- Events that set items in two rounds ----

  /** Own items are never among the other ends, so the order of the rounds does not show. */
  lemma OtherEndsAfter(t: Table, own: Table, tid: Tid, fd: Fd)
    requires forall k :: k in own ==> k.tid == tid
    ensures PipesTo(t + own, tid, fd) == PipesTo(t, tid, fd)
    ensures forall newFd :: Retargets(t + own, tid, fd, newFd) == Retargets(t, tid, fd, newFd)
  {
    assert PipesTo(t + own, tid, fd) == PipesTo(t, tid, fd);
    forall newFd ensures Retargets(t + own, tid, fd, newFd) == Retargets(t, tid, fd, newFd) {
      forall k | k in PipesTo(t, tid, fd) ensures Retargeted((t + own)[k], newFd) == Retargeted(t[k], newFd) {}
    }
  }

  /** With the index where it should be, recording an event puts it where it should be next. */
  lemma IndexedNext(trace: seq<Line>, n: nat, y: FdIndex)
    requires n < |trace| && Did(Indexed(trace[..n]), y,
      Changes(Replay(trace[..n]).table, Replay(trace[..n]).binders, trace[n].event), trace[n].cycle)
    ensures y == Indexed(trace[..n + 1])
    ensures Replay(trace[..n + 1]).binders == Binds(Replay(trace[..n]).binders, trace[n].event)
  {
    hide Changes, Changed, ChangedRecent, Agree, TableOf;
    assert trace[..n + 1][..n] == trace[..n];
  }

  class FdTrack {
    var fdDict: Dict
    var recentCycle: Recent

    ghost function Index(): FdIndex
      reads this
    {
      FdIndex(fdDict, recentCycle)
    }

    constructor ()
      ensures Index() == FdIndex(map[], map[]) && Sound(Index())
    {
      fdDict, recentCycle := map[], map[];
    }

    method SetItem(k: Key, cycle: int, item: Option<Item>)
      requires Sound(Index())
      modifies this
      ensures Did(old(Index()), Index(), map[k := item], cycle)
    {
      hide Put, Agree, TableOf;
      ChangedTable(fdDict, recentCycle, map[k := item], cycle);
      if k !in fdDict {
        fdDict := fdDict[k := []];
      }
      fdDict := fdDict[k := Put(fdDict[k], cycle, item)];
      recentCycle := recentCycle[k := cycle];
      assert fdDict == Changed(old(fdDict), map[k := item], cycle);
      assert recentCycle == ChangedRecent(old(recentCycle), map[k := item], cycle);
    }

    /** The item at the most recent cycle. */
    method GetRecent(k: Key) returns (item: Option<Item>)
      requires Sound(Index()) && k in fdDict
      ensures k in Now(Index()) && item == Now(Index())[k]
    {
      item := At(fdDict[k], recentCycle[k]);
    }

    /** Close the other ends, in other threads, of pipes that lead to this descriptor. */
    method ClosePipes(tid: Tid, fd: Fd, cycle: int)
      requires Sound(Index())
      modifies this
      ensures Did(old(Index()), Index(), AllNone(PipesTo(old(Now(Index())), tid, fd)), cycle)
    {
      hide Did, Doing, Sound;
      ghost var changes := AllNone(PipesTo(Now(Index()), tid, fd));
      DoingStarts(Index(), changes, cycle);
      var left := fdDict.Keys;
      while left != {}
        invariant Doing(old(Index()), Index(), changes, left, cycle)
        decreases |left|
      {
        var k :| k in left;
        ghost var x := Index();
        DoingReads(old(Index()), x, changes, left, cycle, k);
        if k.tid != tid {
          var item := GetRecent(k);
          if IsPipeTo(item, tid, fd) {
            SetItem(k, cycle, None);
          }
        }
        DoingNext(old(Index()), x, changes, left, cycle, k, Index());
        left := left - {k};
      }
      DoingEnds(old(Index()), Index(), changes, cycle);
    }

    method RetargetPipes(tid: Tid, oldFd: Fd, newFd: Fd, cycle: int)
      requires Sound(Index())
      modifies this
      ensures Did(old(Index()), Index(), Retargets(old(Now(Index())), tid, oldFd, newFd), cycle)
    {
      hide Did, Doing, Sound;
      ghost var changes := Retargets(Now(Index()), tid, oldFd, newFd);
      DoingStarts(Index(), changes, cycle);
      var left := fdDict.Keys;
      while left != {}
        invariant Doing(old(Index()), Index(), changes, left, cycle)
        decreases |left|
      {
        var k :| k in left;
        ghost var x := Index();
        DoingReads(old(Index()), x, changes, left, cycle, k);
        if k.tid != tid {
          var item := GetRecent(k);
          if IsPipeTo(item, tid, oldFd) {
            SetItem(k, cycle, Some(item.value.(peerFd := newFd)));
          }
        }
        DoingNext(old(Index()), x, changes, left, cycle, k, Index());
        left := left - {k};
      }
      DoingEnds(old(Index()), Index(), changes, cycle);
    }

    /** The child gets what the parent has; pipes within the parent lead to the child from now on. */
    method CloneItems(tid: Tid, newTid: Tid, cycle: int)
      requires Sound(Index())
      modifies this
      ensures Did(old(Index()), Index(), Clones(old(Now(Index())), tid, newTid, old(fdDict.Keys)), cycle)
    {
      hide Did, Cloning, Sound, Clones, TableOf;
      CloningStarts(Index(), tid, newTid, cycle);
      var left := fdDict.Keys;
      while left != {}
        invariant Cloning(old(Index()), Index(), tid, newTid, left, cycle)
        decreases |left|
      {
        var k :| k in left;
        ghost var x := Index();
        CloningReads(old(Index()), x, tid, newTid, left, cycle, k);
        CloneOne(Now(old(Index())), tid, newTid, k);
        if k.tid == tid {
          CloneKey(k, newTid, cycle);
        } else {
          DidNothing(x, cycle);
        }
        CloningNext(old(Index()), x, tid, newTid, left, cycle, k, Index());
        left := left - {k};
      }
      CloningEnds(old(Index()), Index(), tid, newTid, cycle);
    }

    method CloneKey(k: Key, newTid: Tid, cycle: int)
      requires Sound(Index()) && k in fdDict
      modifies this
      ensures k in old(Now(Index()))
      ensures Did(old(Index()), Index(),
        var item := old(Now(Index()))[k];
        if item == None then map[]
        else if item.value.Pipe? then map[k := Some(Handed(item.value, k.tid, newTid))] + map[Key(k.fd, newTid) := item]
        else map[Key(k.fd, newTid) := item], cycle)
    {
      hide Did, Sound;
      ghost var x := Index();
      DidNothing(x, cycle);
      var item := GetRecent(k);
      if item.Some? {
        if item.value.Pipe? {
          SetItem(k, cycle, Some(Handed(item.value, k.tid, newTid)));
          DidSound(x, Index(), map[k := Some(Handed(item.value, k.tid, newTid))], cycle);
        }
        ghost var y := Index();
        SetItem(Key(k.fd, newTid), cycle, item);
        if item.value.Pipe? {
          DidMore(x, y, map[k := Some(Handed(item.value, k.tid, newTid))], Index(), map[Key(k.fd, newTid) := item],
            cycle);
        }
      }
    }

    /** Everything the thread has is closed, descriptor by descriptor. */
    method ExitGroup(tid: Tid, cycle: int)
      requires Sound(Index())
      modifies this
      ensures Did(old(Index()), Index(), Exits(old(Now(Index())), tid, old(fdDict.Keys)), cycle)
    {
      hide Did, Exiting, Sound, Exits;
      ExitingStarts(Index(), tid, cycle);
      var left := fdDict.Keys;
      while left != {}
        invariant Exiting(old(Index()), Index(), tid, left, cycle)
        decreases |left|
      {
        var k :| k in left;
        ghost var x := Index();
        ExitingSound(old(Index()), x, tid, left, cycle);
        if k.tid == tid {
          CloseItem(k, cycle);
        }
        ExitingNext(old(Index()), x, tid, left, cycle, k, Index());
        left := left - {k};
      }
      ExitingEnds(old(Index()), Index(), tid, cycle);
    }

    method CloseItem(k: Key, cycle: int)
      requires Sound(Index())
      modifies this
      ensures var others := PipesTo(old(Now(Index())) + map[k := None], k.tid, k.fd);
        Did(old(Index()), Index(), map[k := None] + AllNone(others), cycle)
    {
      hide Did, Sound;
      ghost var x := Index();
      SetItem(k, cycle, None);
      DidSound(x, Index(), map[k := None], cycle);
      ghost var y := Index();
      ClosePipes(k.tid, k.fd, cycle);
      DidMore(x, y, map[k := None], Index(), AllNone(PipesTo(Now(y), k.tid, k.fd)), cycle);
    }

    method DupItem(tid: Tid, oldFd: Fd, newFd: Fd, cycle: int)
      requires Sound(Index())
      modifies this
      ensures var t := old(Now(Index()));
        Did(old(Index()), Index(), Copied(t, tid, oldFd, newFd) + Retargets(t, tid, oldFd, newFd), cycle)
    {
      hide Did, Sound, Retargets;
      ghost var x, own: Table := Index(), map[];
      DidNothing(x, cycle);
      SoundKeys(x);
      if Key(oldFd, tid) in fdDict {
        var item := GetRecent(Key(oldFd, tid));
        SetItem(Key(newFd, tid), cycle, item);
        own := map[Key(newFd, tid) := item];
      }
      DidSound(x, Index(), own, cycle);
      OtherEndsAfter(Now(x), own, tid, oldFd);
      ghost var y := Index();
      RetargetPipes(tid, oldFd, newFd, cycle);
      DidMore(x, y, own, Index(), Retargets(Now(x), tid, oldFd, newFd), cycle);
    }

    /** One line of the trace; the script may give up. */
    method Record(e: Event, cycle: int, binders: Binders) returns (stopped: bool, bound: Binders)
      requires Sound(Index())
      modifies this
      ensures stopped <==> Stops(old(Now(Index())), binders, e)
      ensures !stopped ==>
        Did(old(Index()), Index(), Changes(old(Now(Index())), binders, e), cycle) && bound == Binds(binders, e)
    {
      hide Did, Sound, Exits, Clones, Retargets, TableOf;
      stopped, bound := false, binders;
      ghost var x := Index();
      SoundKeys(x);
      match e
      case Opened(fd, tid, name) =>
        if fd == "NULL" { stopped := true; } else { SetItem(Key(fd, tid), cycle, Some(File(name))); }
      case Closed(fd, tid) =>
        if fd == "NULL" {
          stopped := true;
        } else {
          OtherEndsAfter(Now(x), map[Key(fd, tid) := None], tid, fd);
          CloseItem(Key(fd, tid), cycle);
        }
      case Bound(fd, tid, address) =>
        if fd == "NULL" {
          stopped := true;
        } else {
          SetItem(Key(fd, tid), cycle, Some(Bind(address)));
          if tid !in bound {
            bound := bound[tid := map[]];
          }
          bound := bound[tid := bound[tid][fd := address]];
        }
      case Connected(fd, tid, address) =>
        if fd == "NULL" { stopped := true; } else { SetItem(Key(fd, tid), cycle, Some(Connect(address))); }
      case Accepted(lineFd, tid, sockFd, newFd) =>
        if tid in binders && sockFd in binders[tid] && !(lineFd.Some? && lineFd.value in binders[tid]) {
          stopped := true;
        } else if newFd == "NULL" {
          stopped := true;
        } else {
          SetItem(Key(newFd, tid), cycle, Some(AcceptItem(binders, e)));
        }
      case Piped(tid, fd1, fd2) =>
        if fd1 == "NULL" || fd2 == "NULL" { stopped := true; } else { PipeItems(tid, fd1, fd2, cycle); }
      case Duped(tid, oldFd, newFd) =>
        if newFd == "NULL" && Key(oldFd, tid) in fdDict { stopped := true; } else { DupItem(tid, oldFd, newFd, cycle); }
      case Cloned(tid, newTid) =>
        CloneItems(tid, newTid, cycle);
      case Exited(tid) =>
        ExitGroup(tid, cycle);
    }

    method PipeItems(tid: Tid, fd1: Fd, fd2: Fd, cycle: int)
      requires Sound(Index())
      modifies this
      ensures Did(old(Index()), Index(), PipeEnds(tid, fd1, fd2), cycle)
    {
      hide Did, Sound;
      ghost var x := Index();
      SetItem(Key(fd1, tid), cycle, Some(Pipe(true, tid, fd2)));
      ghost var y, one := Index(), map[Key(fd1, tid) := Some(Pipe(true, tid, fd2))];
      DidSound(x, y, one, cycle);
      SetItem(Key(fd2, tid), cycle, Some(Pipe(false, tid, fd1)));
      DidMore(x, y, one, Index(), map[Key(fd2, tid) := Some(Pipe(false, tid, fd1))], cycle);
    }

    /** show: per timeline, the last item before the first cycle that is not before `want`. */
    method Show(want: int) returns (shown: map<Key, Item>)
      ensures shown == Shown(fdDict, want)
    {
      hide LastBefore, ShownOf, Shown;
      shown := map[];
      var left := fdDict.Keys;
      ShownAll(fdDict, want);
      while left != {}
        invariant left <= fdDict.Keys
        invariant shown == ShownOf(fdDict, fdDict.Keys - left, want)
        decreases |left|
      {
        var k :| k in left;
        var item := ShowItem(fdDict[k], want);
        ShownNext(fdDict, fdDict.Keys - left, want, k);
        assert fdDict.Keys - (left - {k}) == fdDict.Keys - left + {k};
        if item.Some? {
          shown := shown[k := item.value];
        }
        left := left - {k};
      }
      assert fdDict.Keys - {} == fdDict.Keys;
    }

    static method ShowItem(tl: Timeline, want: int) returns (item: Option<Item>)
      ensures item == LastBefore(tl, want)
    {
      item := None;
      var i := 0;
      assert tl[0..] == tl;
      while i < |tl| && tl[i].cycle < want
        invariant 0 <= i <= |tl|
        invariant i == 0 ==> item == None
        invariant i > 0 ==> item == tl[i - 1].item && tl[i - 1].cycle < want
        invariant i > 0 ==> LastBefore(tl, want) == LastBefore(tl[i - 1..], want)
      {
        item := tl[i].item;
        i := i + 1;
      }
    }
  }

  /** getDict: the index of a whole trace, if the script gets through it. */
  method GetDict(trace: seq<Line>) returns (track: FdTrack, stopped: bool)
    ensures fresh(track)
    ensures !stopped <==> Completes(trace)
    ensures !stopped ==> track.Index() == Indexed(trace)
  {
    hide Changes, Did, Stops, Indexed, Replay;
    track := new FdTrack();
    var binders: Binders := map[];
    NothingIndexed();
    assert trace[..0] == [];
    for n := 0 to |trace|
      invariant fresh(track) && track.Index() == Indexed(trace[..n]) && binders == Replay(trace[..n]).binders
      invariant forall m :: 0 <= m < n ==> !Stops(Replay(trace[..m]).table, Replay(trace[..m]).binders, trace[m].event)
    {
      IndexedNow(trace[..n]);
      stopped, binders := track.Record(trace[n].event, trace[n].cycle, binders);
      if stopped {
        return;
      }
      IndexedNext(trace, n, track.Index());
    }
    stopped := false;
    assert trace[..|trace|] == trace;
  }

  lemma NothingIndexed()
    ensures Indexed([]) == FdIndex(map[], map[]) && Replay([]) == World(map[], map[])
  {
  }

  /** The script as a whole. */
  method ShowFds(trace: seq<Line>, want: int) returns (shown: Option<map<Key, Item>>)
    ensures shown.Some? <==> Completes(trace)
    ensures shown.Some? ==> shown.value == Shown(Indexed(trace).dict, want)
    ensures shown.Some? && Nondecreasing(trace) ==> shown.value == OpenOnes(Replay(Before(trace, want)).table)
  {
    hide Replay, Indexed, Shown, OpenOnes, Before, Completes;
    var track, stopped := GetDict(trace);
    if stopped {
      return None;
    }
    var open := track.Show(want);
    shown := Some(open);
    if Nondecreasing(trace) {
      ShowIsReplay(trace, want);
    }
  }
}
