/** The pool of dedupCoverage.py with a given number of processes. Pool.map hands out the tasks in chunks, one
    chunk after the other: a process works through its chunk in order, so two tasks of one chunk never overlap,
    and it takes the next chunk when it is done, so fewer chunks before it are unfinished than there are
    processes. */
module DedupChunks {
  import opened Collections
  import opened DedupPool
  import opened DedupWorker

  /** chunkOf[k] is the chunk of task k; chunks are stretches of the task list. */
  predicate Chunked(fs: seq<CoverFile>, chunkOf: seq<nat>) {
    |chunkOf| == |fs| && forall i, j :: 0 <= i <= j < |chunkOf| ==> chunkOf[i] <= chunkOf[j]
  }

  /** The chunks of Pool.map, all of one size but the last. */
  function ChunksOfSize(n: nat, size: nat): seq<nat>
    requires size > 0
  {
    seq(n, k requires 0 <= k => k / size)
  }

  lemma ChunksOfSizeChunked(fs: seq<CoverFile>, size: nat)
    requires size > 0
    ensures Chunked(fs, ChunksOfSize(|fs|, size))
  {
    forall i, j | 0 <= i <= j < |fs| ensures i / size <= j / size {
      DivMonotone(i, j, size);
    }
  }

  lemma DivMonotone(i: nat, j: nat, size: nat)
    requires size > 0 && i <= j
    ensures i / size <= j / size
  {
    var a, b := i / size, j / size;
    if a > b {
      MoreChunks(a, b, size, i % size, j % size);
    }
  }

  lemma MoreChunks(a: nat, b: nat, size: nat, r: nat, t: nat)
    requires a > b && t < size
    ensures a * size + r > b * size + t
  {
    assert a * size == (a - b - 1) * size + (b * size + size);
  }

  // ---- Interleavings of such a pool ----

  /** A task starts only when those before it in its chunk are done. */
  predicate InChunkOrder(s: State, chunkOf: seq<nat>)
    requires |chunkOf| == |s.workers|
  {
    forall u, v :: 0 <= u < v < |chunkOf| && chunkOf[u] == chunkOf[v] && !s.workers[v].Ready? ==> s.workers[u].Done?
  }

  ghost predicate Taken(s: State, chunkOf: seq<nat>, c: nat)
    requires |chunkOf| == |s.workers|
  {
    exists u :: 0 <= u < |chunkOf| && chunkOf[u] == c && !s.workers[u].Ready?
  }

  ghost predicate Unfinished(s: State, chunkOf: seq<nat>, c: nat)
    requires |chunkOf| == |s.workers|
  {
    exists v :: 0 <= v < |chunkOf| && chunkOf[v] == c && !s.workers[v].Done?
  }

  ghost function LeftBefore(s: State, chunkOf: seq<nat>, c: nat): set<nat>
    requires |chunkOf| == |s.workers|
  {
    set b | b in chunkOf && b < c && Unfinished(s, chunkOf, b)
  }

  /** A chunk is taken only by a process that has no other left to do. */
  ghost predicate HandedOut(s: State, chunkOf: seq<nat>, processes: nat)
    requires |chunkOf| == |s.workers|
  {
    forall c :: c in chunkOf && Taken(s, chunkOf, c) ==> |LeftBefore(s, chunkOf, c)| < processes
  }

  ghost predicate InPool(fs: seq<CoverFile>, chunkOf: seq<nat>, processes: nat, schedule: seq<nat>)
    requires |chunkOf| == |fs|
  {
    && InChunkOrder(Exec(fs, schedule), chunkOf) && HandedOut(Exec(fs, schedule), chunkOf, processes)
    && (schedule != [] ==> InPool(fs, chunkOf, processes, schedule[..|schedule| - 1]))
  }

  /** So no more chunks are under way than there are processes. */
  lemma AtMostProcesses(s: State, chunkOf: seq<nat>, processes: nat, busy: set<nat>)
    requires |chunkOf| == |s.workers| && HandedOut(s, chunkOf, processes)
    requires forall c :: c in busy ==> c in chunkOf && Taken(s, chunkOf, c) && Unfinished(s, chunkOf, c)
    ensures |busy| <= processes
  {
    hide Taken, Unfinished;
    if busy != {} {
      var last := Latest(busy);
      SubsetCardinality(busy - {last}, LeftBefore(s, chunkOf, last));
    }
  }

  lemma {:induction false} Latest(chunks: set<nat>) returns (last: nat)
    requires chunks != {}
    ensures last in chunks && forall c :: c in chunks ==> c <= last
  {
    var c :| c in chunks;
    if chunks == {c} {
      last := c;
    } else {
      assert chunks == chunks - {c} + {c};
      var other := Latest(chunks - {c});
      last := if other > c then other else c;
    }
  }

  // ---- When hits can be lost ----

  ghost predicate Maximal(fs: seq<CoverFile>, x: nat)
    requires x < |fs|
  {
    forall y :: 0 <= y < |fs| && Below(fs, x, y) ==> SameHits(fs, x, y)
  }

  /** No seed has the same hits. */
  ghost predicate NoSeedLike(fs: seq<CoverFile>, x: nat)
    requires x < |fs|
  {
    forall j :: 0 <= j < |fs| && SameHits(fs, x, j) ==> !fs[j].isOrig
  }

  /** Two non-seeds with the same hits, which no seed has and no other file exceeds, in different chunks. */
  ghost predicate Clash(fs: seq<CoverFile>, chunkOf: seq<nat>, x: nat, y: nat) {
    && |chunkOf| == |fs| && x < |fs| && y < |fs| && chunkOf[x] != chunkOf[y]
    && SameHits(fs, x, y) && Maximal(fs, x) && NoSeedLike(fs, x)
  }

  /** Hit lists are the keys of a dictionary. */
  ghost predicate DistinctHits(fs: seq<CoverFile>) {
    forall i :: 0 <= i < |fs| ==> Distinct(fs[i].hits)
  }

  /** Where a seed is among the files that no other exceeds, all of its hits are in a file that cannot be
      dropped. */
  ghost predicate SeedsHold(fs: seq<CoverFile>) {
    forall x :: 0 <= x < |fs| && Maximal(fs, x) && !NoSeedLike(fs, x) ==> HasAnchor(fs, x)
  }

  /** That is so when same-named seeds have the same hits. */
  lemma SeedsThatAgreeHold(fs: seq<CoverFile>)
    requires SeedsAgree(fs)
    ensures SeedsHold(fs)
  {
    forall x | 0 <= x < |fs| && Maximal(fs, x) && !NoSeedLike(fs, x) ensures HasAnchor(fs, x) {
      var j :| 0 <= j < |fs| && SameHits(fs, x, j) && fs[j].isOrig;
      var i := FirstSeed(fs, j);
      if i != j {
        assert EarlierSeed(fs, i, j);
      }
      BelowTrans(fs, x, j, i);
      assert !Clearable(fs, i);
    }
  }

  /** Where it is not so hits can be lost without any clash, if there are processes enough. */
  lemma UnheldSeedsLose(fs: seq<CoverFile>) returns (schedule: seq<nat>)
    requires !SeedsHold(fs)
    ensures Complete(Exec(fs, schedule)) && !Preserved(fs, Exec(fs, schedule).flags)
  {
    assert !Anchored(fs);
    PreservedIffAnchored(fs);
    schedule :| Complete(Exec(fs, schedule)) && !Preserved(fs, Exec(fs, schedule).flags);
  }

  lemma SameHitsTrans(fs: seq<CoverFile>, x: nat, y: nat, z: nat)
    requires x < |fs| && y < |fs| && z < |fs| && SameHits(fs, x, y) && SameHits(fs, x, z)
    ensures SameHits(fs, y, z)
  {
  }

  /** Of two files with the same hits either is dropped by the other's worker. */
  lemma EqualsPrune(fs: seq<CoverFile>, x: nat, w: nat, j: nat)
    requires DistinctHits(fs) && x < |fs| && w < |fs| && j < |fs| && w != j
    requires SameHits(fs, x, w) && SameHits(fs, x, j) && NoSeedLike(fs, x)
    ensures Prunes(fs, w, j)
  {
    SameHitsTrans(fs, x, w, j);
    DistinctCardinality(fs[w].hits);
    DistinctCardinality(fs[j].hits);
    forall h ensures h in fs[w].hits <==> h in fs[j].hits {}
    assert ToSet(fs[w].hits) == ToSet(fs[j].hits);
  }

  /** And by no other worker. */
  lemma OnlyEqualsPrune(fs: seq<CoverFile>, x: nat, w: nat, j: nat)
    requires x < |fs| && w < |fs| && j < |fs| && Maximal(fs, x) && SameHits(fs, x, j) && Prunes(fs, w, j)
    ensures SameHits(fs, x, w)
  {
    BelowTrans(fs, x, j, w);
  }

  lemma {:induction false} FirstEqual(fs: seq<CoverFile>, x: nat, y: nat) returns (f: nat)
    requires x < |fs| && y < |fs| && SameHits(fs, x, y)
    ensures f <= y && SameHits(fs, x, f) && forall k :: 0 <= k < f ==> !SameHits(fs, x, k)
    decreases y
  {
    if k :| 0 <= k < y && SameHits(fs, x, k) {
      f := FirstEqual(fs, x, k);
    } else {
      f := y;
    }
  }

  // ---- Within one chunk the first of equal files stays ----

  ghost predicate FirstHolds(fs: seq<CoverFile>, s: State, f: nat)
    requires Shaped(fs, s) && f < |fs|
  {
    && s.flags[f]
    && forall w :: 0 <= w < |fs| && w != f && SameHits(fs, f, w) ==>
         if s.workers[f].Done? then !s.flags[w] && (s.workers[w].Ready? || s.workers[w].Done?) else s.workers[w].Ready?
  }

  lemma FirstHoldsStep(fs: seq<CoverFile>, chunkOf: seq<nat>, s: State, f: nat, w: nat)
    requires Shaped(fs, s) && f < |fs| && w < |fs| && Chunked(fs, chunkOf) && DistinctHits(fs)
    requires Maximal(fs, f) && NoSeedLike(fs, f) && SameHits(fs, f, f)
    requires forall k :: 0 <= k < |fs| && SameHits(fs, f, k) ==> f <= k && chunkOf[k] == chunkOf[f]
    requires FirstHolds(fs, s, f) && OnlyClearableGone(fs, s)
    requires InChunkOrder(Step(fs, s, w), chunkOf) && Settled(fs, Step(fs, s, w), f)
    ensures FirstHolds(fs, Step(fs, s, w), f)
  {
    var t := Step(fs, s, w);
    assert t.flags[f] by {
      if s.workers[w].Clearing? && s.workers[w].j == f {
        OnlyEqualsPrune(fs, f, w, f);
      }
    }
    forall v | 0 <= v < |fs| && v != f && SameHits(fs, f, v)
      ensures if t.workers[f].Done? then !t.flags[v] && (t.workers[v].Ready? || t.workers[v].Done?)
        else t.workers[v].Ready?
    {
      if t.workers[f].Done? && !s.workers[f].Done? {
        EqualsPrune(fs, f, f, v);
      }
    }
  }

  lemma {:induction false} FirstAlwaysHolds(fs: seq<CoverFile>, chunkOf: seq<nat>, processes: nat, schedule: seq<nat>,
      f: nat)
    requires f < |fs| && Chunked(fs, chunkOf) && DistinctHits(fs) && InPool(fs, chunkOf, processes, schedule)
    requires Maximal(fs, f) && NoSeedLike(fs, f)
    requires forall k :: 0 <= k < |fs| && SameHits(fs, f, k) ==> f <= k && chunkOf[k] == chunkOf[f]
    ensures FirstHolds(fs, Exec(fs, schedule), f)
  {
    hide Maximal, NoSeedLike, HandedOut;
    if schedule != [] {
      var before, w := schedule[..|schedule| - 1], schedule[|schedule| - 1];
      FirstAlwaysHolds(fs, chunkOf, processes, before, f);
      if w < |fs| {
        OnlyClearableCleared(fs, before);
        AlwaysSettled(fs, schedule);
        FirstHoldsStep(fs, chunkOf, Exec(fs, before), f, w);
      }
    }
  }

  lemma NoClashPreserves(fs: seq<CoverFile>, chunkOf: seq<nat>, processes: nat, schedule: seq<nat>)
    requires Chunked(fs, chunkOf) && SeedsHold(fs) && DistinctHits(fs) && InPool(fs, chunkOf, processes, schedule)
    requires forall x, y :: !Clash(fs, chunkOf, x, y)
    ensures Preserved(fs, Exec(fs, schedule).flags)
  {
    forall x | 0 <= x < |fs| ensures Kept(fs, Exec(fs, schedule).flags, x) {
      var m := MaximalFile(fs, x);
      if !NoSeedLike(fs, m) {
        SeedKeeps(fs, schedule, x, m);
      } else {
        var f := FirstEqual(fs, m, m);
        EqualsKeep(fs, chunkOf, processes, schedule, x, m, f);
      }
    }
  }

  lemma SeedKeeps(fs: seq<CoverFile>, schedule: seq<nat>, x: nat, m: nat)
    requires SeedsHold(fs) && x < |fs| && m < |fs| && Below(fs, x, m) && Maximal(fs, m) && !NoSeedLike(fs, m)
    ensures Kept(fs, Exec(fs, schedule).flags, x)
  {
    assert HasAnchor(fs, m);
    var y :| 0 <= y < |fs| && !Clearable(fs, y) && Below(fs, m, y);
    BelowTrans(fs, x, m, y);
    OnlyClearableCleared(fs, schedule);
  }

  lemma EqualsKeep(fs: seq<CoverFile>, chunkOf: seq<nat>, processes: nat, schedule: seq<nat>, x: nat, m: nat, f: nat)
    requires Chunked(fs, chunkOf) && DistinctHits(fs) && InPool(fs, chunkOf, processes, schedule)
    requires x < |fs| && m < |fs| && f < |fs| && Below(fs, x, m) && SameHits(fs, m, f)
    requires forall k :: 0 <= k < f ==> !SameHits(fs, m, k)
    requires Maximal(fs, m) && NoSeedLike(fs, m) && forall a, b :: !Clash(fs, chunkOf, a, b)
    ensures Kept(fs, Exec(fs, schedule).flags, x)
  {
    assert SameHits(fs, f, m);
    assert Maximal(fs, f) by {
      forall y | 0 <= y < |fs| && Below(fs, f, y) ensures SameHits(fs, f, y) {
        BelowTrans(fs, m, f, y);
        SameHitsTrans(fs, m, f, y);
      }
    }
    assert NoSeedLike(fs, f) by {
      forall j | 0 <= j < |fs| && SameHits(fs, f, j) ensures !fs[j].isOrig {
        SameHitsTrans(fs, f, m, j);
      }
    }
    forall k | 0 <= k < |fs| && SameHits(fs, f, k) ensures f <= k && chunkOf[k] == chunkOf[f] {
      SameHitsTrans(fs, f, m, k);
      assert !Clash(fs, chunkOf, f, k);
    }
    FirstAlwaysHolds(fs, chunkOf, processes, schedule, f);
    BelowTrans(fs, x, m, f);
  }

  // ---- Across two chunks all of them can go ----

  /** Outside chunk a, tasks before k are done and those after k have not started; chunk a does not come
      after k. */
  ghost predicate Frontier(s: State, chunkOf: seq<nat>, a: nat, k: nat)
    requires |chunkOf| == |s.workers|
  {
    && (forall v :: 0 <= v < |chunkOf| && v < k && chunkOf[v] != a ==> s.workers[v].Done?)
    && (forall v :: 0 <= v < |chunkOf| && v > k && chunkOf[v] != a ==> s.workers[v].Ready?)
    && (a in chunkOf ==> forall v :: k <= v < |chunkOf| ==> a <= chunkOf[v])
  }

  lemma OnlyOneLeft(s: State, chunkOf: seq<nat>, a: nat, k: nat, c: nat, b: nat)
    requires |chunkOf| == |s.workers| && Frontier(s, chunkOf, a, k)
    requires forall i, j :: 0 <= i <= j < |chunkOf| ==> chunkOf[i] <= chunkOf[j]
    requires Taken(s, chunkOf, c) && b < c && Unfinished(s, chunkOf, b)
    ensures b == a
  {
    var u :| 0 <= u < |chunkOf| && chunkOf[u] == c && !s.workers[u].Ready?;
    var v :| 0 <= v < |chunkOf| && chunkOf[v] == b && !s.workers[v].Done?;
  }

  lemma FrontierIsHandedOut(s: State, chunkOf: seq<nat>, a: nat, k: nat, processes: nat)
    requires |chunkOf| == |s.workers| && Frontier(s, chunkOf, a, k) && processes >= 2
    requires forall i, j :: 0 <= i <= j < |chunkOf| ==> chunkOf[i] <= chunkOf[j]
    ensures HandedOut(s, chunkOf, processes)
  {
    hide Taken, Unfinished, Frontier;
    forall c | c in chunkOf && Taken(s, chunkOf, c) ensures |LeftBefore(s, chunkOf, c)| < processes {
      var left := LeftBefore(s, chunkOf, c);
      forall b | b in left ensures b in {a} {
        OnlyOneLeft(s, chunkOf, a, k, c, b);
      }
      SubsetCardinality(left, {a});
    }
  }

  /** One worker runs alone to its end, within the pool. */
  lemma {:induction false} AloneInPool(fs: seq<CoverFile>, chunkOf: seq<nat>, processes: nat, schedule: seq<nat>,
      a: nat, k: nat, w: nat)
      returns (longer: seq<nat>)
    requires Chunked(fs, chunkOf) && processes >= 2 && w < |fs| && InPool(fs, chunkOf, processes, schedule)
    requires Frontier(Exec(fs, schedule), chunkOf, a, k) && (w == k || chunkOf[w] == a)
    requires forall u :: 0 <= u < w && chunkOf[u] == chunkOf[w] ==> Exec(fs, schedule).workers[u].Done?
    ensures InPool(fs, chunkOf, processes, longer)
    ensures Exec(fs, longer).flags == RunAlone(fs, Exec(fs, schedule).flags, w, Exec(fs, schedule).workers[w])
    ensures Exec(fs, longer).workers == Exec(fs, schedule).workers[w := Done]
    decreases Work(|fs|, Exec(fs, schedule).workers[w])
  {
    hide HandedOut, InChunkOrder, Frontier, InPool;
    var s := Exec(fs, schedule);
    var p := s.workers[w];
    if p.Done? {
      longer := schedule;
      assert s.workers[w := Done] == s.workers;
    } else {
      OnlyClearableCleared(fs, schedule);
      assert SeenJustified(fs, w, p);
      ExecAppend(fs, schedule, w);
      OneStepInPool(fs, chunkOf, processes, schedule, a, k, w);
      longer := AloneInPool(fs, chunkOf, processes, schedule + [w], a, k, w);
      assert s.workers[w := Exec(fs, schedule + [w]).workers[w]][w := Done] == s.workers[w := Done];
    }
  }

  lemma OneStepInPool(fs: seq<CoverFile>, chunkOf: seq<nat>, processes: nat, schedule: seq<nat>, a: nat, k: nat, w: nat)
    requires Chunked(fs, chunkOf) && processes >= 2 && w < |fs| && InPool(fs, chunkOf, processes, schedule)
    requires Frontier(Exec(fs, schedule), chunkOf, a, k) && (w == k || chunkOf[w] == a)
    requires forall u :: 0 <= u < w && chunkOf[u] == chunkOf[w] ==> Exec(fs, schedule).workers[u].Done?
    ensures InPool(fs, chunkOf, processes, schedule + [w])
    ensures Frontier(Exec(fs, schedule + [w]), chunkOf, a, k)
  {
    hide HandedOut;
    ExecAppend(fs, schedule, w);
    var t := Exec(fs, schedule + [w]);
    assert (schedule + [w])[..|schedule|] == schedule;
    FrontierIsHandedOut(t, chunkOf, a, k, processes);
    assert InChunkOrder(t, chunkOf);
  }

  // ---- What a worker alone does to the flags ----

  lemma {:induction false} AloneOnlyClears(fs: seq<CoverFile>, flags: seq<bool>, w: nat, p: Worker, j: nat)
    requires w < |fs| == |flags| && j < |fs| && !flags[j]
    ensures !RunAlone(fs, flags, w, p)[j]
    decreases Work(|fs|, p)
  {
    if !(p.Done? || (p.Clearing? && p.j >= |fs|)) {
      AloneOnlyClears(fs, NextFlags(flags, p), w, Next(fs, flags, w, p), j);
    }
  }

  /** A non-seed that the worker does not prune is left alone. */
  lemma {:induction false} AloneSpares(fs: seq<CoverFile>, flags: seq<bool>, w: nat, p: Worker, j: nat)
    requires w < |fs| == |flags| && j < |fs| && !fs[j].isOrig && !Prunes(fs, w, j) && !(p.Clearing? && p.j == j)
    ensures RunAlone(fs, flags, w, p)[j] == flags[j]
    decreases Work(|fs|, p)
  {
    if !(p.Done? || (p.Clearing? && p.j >= |fs|)) {
      AloneSpares(fs, NextFlags(flags, p), w, Next(fs, flags, w, p), j);
    }
  }

  /** One that it prunes is cleared, if the worker has not passed it yet. */
  lemma {:induction false} AlonePrunes(fs: seq<CoverFile>, flags: seq<bool>, w: nat, p: Worker, j: nat)
    requires w < |fs| == |flags| && j < |fs| && Prunes(fs, w, j)
    requires (p.Scanning? && p.j <= j) || (p.Clearing? && p.j <= j)
    ensures !RunAlone(fs, flags, w, p)[j]
    decreases Work(|fs|, p)
  {
    var flags1, q := NextFlags(flags, p), Next(fs, flags, w, p);
    if p.j == j && (p.Clearing? || !flags[j]) {
      AloneOnlyClears(fs, flags1, w, q, j);
    } else {
      AlonePrunes(fs, flags1, w, q, j);
    }
  }

  // ---- An interleaving that loses a whole class of equal files ----

  /** Outside chunk a exactly the tasks before k have run. */
  ghost predicate RunUpTo(s: State, chunkOf: seq<nat>, a: nat, k: nat)
    requires |chunkOf| == |s.workers|
  {
    Frontier(s, chunkOf, a, k) && (k < |chunkOf| && chunkOf[k] != a ==> s.workers[k].Ready?)
  }

  ghost predicate SparesEquals(fs: seq<CoverFile>, x: nat, before: seq<bool>, after: seq<bool>)
    requires x < |fs| && |before| == |after| == |fs|
  {
    forall j :: 0 <= j < |fs| && SameHits(fs, x, j) ==> after[j] == before[j]
  }

  ghost predicate OnlyCleared(before: seq<bool>, after: seq<bool>) {
    |before| == |after| && forall j :: 0 <= j < |before| && after[j] ==> before[j]
  }

  ghost predicate SameChunk(s: State, t: State, chunkOf: seq<nat>, a: nat)
    requires |chunkOf| == |s.workers| == |t.workers|
  {
    forall v :: 0 <= v < |chunkOf| && chunkOf[v] == a ==> t.workers[v] == s.workers[v]
  }

  /** The tasks from k to m run one after the other, those of chunk a excepted. */
  lemma {:induction false} RunOthers(fs: seq<CoverFile>, chunkOf: seq<nat>, processes: nat, schedule: seq<nat>, a: nat,
      k: nat, m: nat, x: nat)
      returns (longer: seq<nat>)
    requires Chunked(fs, chunkOf) && processes >= 2 && InPool(fs, chunkOf, processes, schedule)
    requires k <= m <= |fs| && RunUpTo(Exec(fs, schedule), chunkOf, a, k)
    requires x < |fs| && Maximal(fs, x) && NoSeedLike(fs, x)
    ensures InPool(fs, chunkOf, processes, longer) && RunUpTo(Exec(fs, longer), chunkOf, a, m)
    ensures SameChunk(Exec(fs, schedule), Exec(fs, longer), chunkOf, a)
    ensures OnlyCleared(Exec(fs, schedule).flags, Exec(fs, longer).flags)
    ensures (forall w :: k <= w < m && chunkOf[w] != a ==> !SameHits(fs, x, w)) ==>
      SparesEquals(fs, x, Exec(fs, schedule).flags, Exec(fs, longer).flags)
    decreases m - k
  {
    hide InPool, Maximal, NoSeedLike;
    if k == m {
      longer := schedule;
    } else if chunkOf[k] == a {
      longer := RunOthers(fs, chunkOf, processes, schedule, a, k + 1, m, x);
    } else {
      var s := Exec(fs, schedule);
      var next := AloneInPool(fs, chunkOf, processes, schedule, a, k, k);
      AloneFlags(fs, s.flags, k, s.workers[k], x);
      longer := RunOthers(fs, chunkOf, processes, next, a, k + 1, m, x);
    }
  }

  /** A worker only clears flags, and none of a class of equal maximal files unless it belongs to it. */
  lemma AloneFlags(fs: seq<CoverFile>, flags: seq<bool>, w: nat, p: Worker, x: nat)
    requires w < |fs| == |flags| && x < |fs| && Maximal(fs, x) && NoSeedLike(fs, x)
    ensures OnlyCleared(flags, RunAlone(fs, flags, w, p))
    ensures p.Ready? && !SameHits(fs, x, w) ==> SparesEquals(fs, x, flags, RunAlone(fs, flags, w, p))
  {
    forall j | 0 <= j < |fs| && !flags[j] ensures !RunAlone(fs, flags, w, p)[j] {
      AloneOnlyClears(fs, flags, w, p, j);
    }
    if p.Ready? && !SameHits(fs, x, w) {
      forall j | 0 <= j < |fs| && SameHits(fs, x, j) ensures RunAlone(fs, flags, w, p)[j] == flags[j] {
        if Prunes(fs, w, j) {
          OnlyEqualsPrune(fs, x, w, j);
        }
        AloneSpares(fs, flags, w, p, j);
      }
    }
  }

  ghost predicate ChunkDoneTo(s: State, chunkOf: seq<nat>, a: nat, k: nat)
    requires |chunkOf| == |s.workers|
  {
    forall v :: 0 <= v < |chunkOf| && v < k && chunkOf[v] == a ==> s.workers[v].Done?
  }

  /** The rest of chunk a runs, from task k on. */
  lemma {:induction false} RunChunk(fs: seq<CoverFile>, chunkOf: seq<nat>, processes: nat, schedule: seq<nat>, a: nat,
      at: nat, k: nat, x: nat)
      returns (longer: seq<nat>)
    requires Chunked(fs, chunkOf) && processes >= 2 && InPool(fs, chunkOf, processes, schedule)
    requires k <= |fs| && at < |fs| && chunkOf[at] != a
    requires Frontier(Exec(fs, schedule), chunkOf, a, at) && ChunkDoneTo(Exec(fs, schedule), chunkOf, a, k)
    requires Exec(fs, schedule).workers[at].Done?
    requires x < |fs| && Maximal(fs, x) && NoSeedLike(fs, x)
    ensures InPool(fs, chunkOf, processes, longer) && ChunkDoneTo(Exec(fs, longer), chunkOf, a, |fs|)
    ensures Frontier(Exec(fs, longer), chunkOf, a, at) && Exec(fs, longer).workers[at].Done?
    ensures OnlyCleared(Exec(fs, schedule).flags, Exec(fs, longer).flags)
    decreases |fs| - k
  {
    hide InPool, Maximal, NoSeedLike;
    if k == |fs| {
      longer := schedule;
    } else if chunkOf[k] != a {
      longer := RunChunk(fs, chunkOf, processes, schedule, a, at, k + 1, x);
    } else {
      var s := Exec(fs, schedule);
      var next := AloneInPool(fs, chunkOf, processes, schedule, a, at, k);
      AloneFlags(fs, s.flags, k, s.workers[k], x);
      longer := RunChunk(fs, chunkOf, processes, next, a, at, k + 1, x);
    }
  }

  /** First the tasks before the first of the equal files, one by one; then it starts, and waits while the
      tasks of later chunks run, up to the first equal file there, which starts too. */
  lemma StartBoth(fs: seq<CoverFile>, chunkOf: seq<nat>, processes: nat, x: nat, w1: nat, w2: nat)
      returns (schedule: seq<nat>)
    requires Chunked(fs, chunkOf) && processes >= 2 && x < |fs| && Maximal(fs, x) && NoSeedLike(fs, x)
    requires w1 < w2 < |fs| && SameHits(fs, x, w1) && SameHits(fs, x, w2) && chunkOf[w1] != chunkOf[w2]
    requires forall k :: 0 <= k < w1 ==> !SameHits(fs, x, k)
    requires forall k :: 0 <= k < w2 && chunkOf[k] != chunkOf[w1] ==> !SameHits(fs, x, k)
    ensures InPool(fs, chunkOf, processes, schedule)
    ensures var s := Exec(fs, schedule);
      && Frontier(s, chunkOf, chunkOf[w1], w2) && ChunkDoneTo(s, chunkOf, chunkOf[w1], w1)
      && s.workers[w1] == Scanning(0, {}) && s.workers[w2] == Scanning(0, {})
  {
    hide InPool, Maximal, NoSeedLike;
    var a, none := chunkOf[w1], chunkOf[|fs| - 1] + 1;
    NothingRun(fs, chunkOf, processes, none);
    var before := RunOthers(fs, chunkOf, processes, [], none, 0, w1, x);
    OneStepInPool(fs, chunkOf, processes, before, a, w1, w1);
    ExecAppend(fs, before, w1);
    var one := before + [w1];
    var others := RunOthers(fs, chunkOf, processes, one, a, w1, w2, x);
    OneStepInPool(fs, chunkOf, processes, others, a, w2, w2);
    ExecAppend(fs, others, w2);
    schedule := others + [w2];
  }

  lemma NothingRun(fs: seq<CoverFile>, chunkOf: seq<nat>, processes: nat, a: nat)
    requires Chunked(fs, chunkOf) && processes >= 2 && a !in chunkOf
    ensures InPool(fs, chunkOf, processes, []) && RunUpTo(Exec(fs, []), chunkOf, a, 0)
    ensures forall j :: 0 <= j < |fs| ==> Exec(fs, []).flags[j]
  {
    FrontierIsHandedOut(Exec(fs, []), chunkOf, a, 0, processes);
  }

  /** Then each of the two runs to its end: the first drops all equal files but itself, the second drops it. */
  lemma DropAll(fs: seq<CoverFile>, flags: seq<bool>, x: nat, w1: nat, w2: nat)
    requires |flags| == |fs| && DistinctHits(fs) && x < |fs| && NoSeedLike(fs, x)
    requires w1 < w2 < |fs| && SameHits(fs, x, w1) && SameHits(fs, x, w2)
    ensures var after := RunAlone(fs, RunAlone(fs, flags, w1, Scanning(0, {})), w2, Scanning(0, {}));
      forall j :: 0 <= j < |fs| && SameHits(fs, x, j) ==> !after[j]
  {
    var first := RunAlone(fs, flags, w1, Scanning(0, {}));
    forall j | 0 <= j < |fs| && SameHits(fs, x, j) ensures !RunAlone(fs, first, w2, Scanning(0, {}))[j] {
      if j == w1 {
        EqualsPrune(fs, x, w2, w1);
        AlonePrunes(fs, first, w2, Scanning(0, {}), w1);
      } else {
        EqualsPrune(fs, x, w1, j);
        AlonePrunes(fs, flags, w1, Scanning(0, {}), j);
        AloneOnlyClears(fs, first, w2, Scanning(0, {}), j);
      }
    }
  }

  lemma RunBoth(fs: seq<CoverFile>, chunkOf: seq<nat>, processes: nat, schedule: seq<nat>, x: nat, w1: nat, w2: nat)
      returns (longer: seq<nat>)
    requires Chunked(fs, chunkOf) && processes >= 2 && DistinctHits(fs) && x < |fs| && NoSeedLike(fs, x)
    requires w1 < w2 < |fs| && SameHits(fs, x, w1) && SameHits(fs, x, w2) && chunkOf[w1] != chunkOf[w2]
    requires InPool(fs, chunkOf, processes, schedule)
    requires var s := Exec(fs, schedule);
      && Frontier(s, chunkOf, chunkOf[w1], w2) && ChunkDoneTo(s, chunkOf, chunkOf[w1], w1)
      && s.workers[w1] == Scanning(0, {}) && s.workers[w2] == Scanning(0, {})
    ensures InPool(fs, chunkOf, processes, longer)
    ensures var t := Exec(fs, longer);
      && Frontier(t, chunkOf, chunkOf[w1], w2) && ChunkDoneTo(t, chunkOf, chunkOf[w1], w1 + 1) && t.workers[w2].Done?
      && forall j :: 0 <= j < |fs| && SameHits(fs, x, j) ==> !t.flags[j]
  {
    hide InPool, NoSeedLike, DistinctHits;
    var a := chunkOf[w1];
    var first := AloneInPool(fs, chunkOf, processes, schedule, a, w2, w1);
    longer := AloneInPool(fs, chunkOf, processes, first, a, w2, w2);
    DropAll(fs, Exec(fs, schedule).flags, x, w1, w2);
  }

  lemma RunRest(fs: seq<CoverFile>, chunkOf: seq<nat>, processes: nat, schedule: seq<nat>, x: nat, w1: nat, w2: nat)
      returns (longer: seq<nat>)
    requires Chunked(fs, chunkOf) && processes >= 2 && x < |fs| && Maximal(fs, x) && NoSeedLike(fs, x)
    requires w1 < w2 < |fs| && chunkOf[w1] != chunkOf[w2] && InPool(fs, chunkOf, processes, schedule)
    requires var t := Exec(fs, schedule);
      Frontier(t, chunkOf, chunkOf[w1], w2) && ChunkDoneTo(t, chunkOf, chunkOf[w1], w1 + 1) && t.workers[w2].Done?
    ensures InPool(fs, chunkOf, processes, longer) && Complete(Exec(fs, longer))
    ensures OnlyCleared(Exec(fs, schedule).flags, Exec(fs, longer).flags)
  {
    hide InPool, Maximal, NoSeedLike;
    var a := chunkOf[w1];
    var chunk := RunChunk(fs, chunkOf, processes, schedule, a, w2, w1 + 1, x);
    longer := RunOthers(fs, chunkOf, processes, chunk, a, w2 + 1, |fs|, x);
  }

  lemma {:induction false} FirstEqualOutside(fs: seq<CoverFile>, chunkOf: seq<nat>, x: nat, a: nat, y: nat)
      returns (f: nat)
    requires |chunkOf| == |fs| && x < |fs| && y < |fs| && SameHits(fs, x, y) && chunkOf[y] != a
    ensures f <= y && SameHits(fs, x, f) && chunkOf[f] != a
    ensures forall k :: 0 <= k < f && chunkOf[k] != a ==> !SameHits(fs, x, k)
    decreases y
  {
    if k :| 0 <= k < y && SameHits(fs, x, k) && chunkOf[k] != a {
      f := FirstEqualOutside(fs, chunkOf, x, a, k);
    } else {
      f := y;
    }
  }

  lemma ClashLoses(fs: seq<CoverFile>, chunkOf: seq<nat>, processes: nat, x: nat, y: nat) returns (schedule: seq<nat>)
    requires Chunked(fs, chunkOf) && DistinctHits(fs) && processes >= 2 && Clash(fs, chunkOf, x, y)
    ensures InPool(fs, chunkOf, processes, schedule) && Complete(Exec(fs, schedule))
    ensures !Preserved(fs, Exec(fs, schedule).flags)
  {
    hide InPool, Maximal, NoSeedLike;
    ClashParts(fs, chunkOf, x, y);
    var w1 := FirstEqual(fs, x, x);
    var w2 := FirstEqualOutside(fs, chunkOf, x, chunkOf[w1], if chunkOf[x] == chunkOf[w1] then y else x);
    assert w1 <= w2;
    var both := StartBoth(fs, chunkOf, processes, x, w1, w2);
    var dropped := RunBoth(fs, chunkOf, processes, both, x, w1, w2);
    schedule := RunRest(fs, chunkOf, processes, dropped, x, w1, w2);
    AllGone(fs, Exec(fs, schedule).flags, x);
  }

  lemma ClashParts(fs: seq<CoverFile>, chunkOf: seq<nat>, x: nat, y: nat)
    requires Clash(fs, chunkOf, x, y)
    ensures SameHits(fs, x, x) && Maximal(fs, x) && NoSeedLike(fs, x)
  {
  }

  lemma AllGone(fs: seq<CoverFile>, flags: seq<bool>, x: nat)
    requires |flags| == |fs| && x < |fs| && Maximal(fs, x)
    requires forall j :: 0 <= j < |fs| && SameHits(fs, x, j) ==> !flags[j]
    ensures !Preserved(fs, flags)
  {
    assert !Kept(fs, flags, x);
  }

  /** A pool of two or more processes preserves coverage in every interleaving if and only if no two equal,
      maximal non-seeds that no seed equals are in different chunks. (With one process it always does.) */
  lemma PreservedIffNoClash(fs: seq<CoverFile>, chunkOf: seq<nat>, processes: nat)
    requires Chunked(fs, chunkOf) && SeedsHold(fs) && DistinctHits(fs) && processes >= 2
    ensures (forall schedule: seq<nat> :: InPool(fs, chunkOf, processes, schedule) && Complete(Exec(fs, schedule)) ==>
              Preserved(fs, Exec(fs, schedule).flags))
       <==> (forall x, y :: !Clash(fs, chunkOf, x, y))
  {
    hide InPool, Complete, Preserved, Clash, SeedsHold, DistinctHits;
    if forall x, y :: !Clash(fs, chunkOf, x, y) {
      forall schedule: seq<nat> | InPool(fs, chunkOf, processes, schedule)
        ensures Preserved(fs, Exec(fs, schedule).flags)
      {
        NoClashPreserves(fs, chunkOf, processes, schedule);
      }
    } else {
      var x: nat, y: nat :| Clash(fs, chunkOf, x, y);
      var schedule := ClashLoses(fs, chunkOf, processes, x, y);
    }
  }
}
