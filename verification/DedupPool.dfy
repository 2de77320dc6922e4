/** The process pool of dedupCoverage.py: one rmSubsets worker per coverage file, all of them
    reading and clearing flags of the shared remaining_array.

    Each flag read and each flag write is one atomic step, and a schedule (the list of the
    workers that take the successive steps) is an interleaving. */
module DedupPool {
  import opened Collections

  /** A coverage file: its hit list, and whether it is a seed (',orig:' in its path). */
  datatype CoverFile = CoverFile(isOrig: bool, basename: string, hits: seq<int>)

  /** Program counter and locals of one worker; `seen` is did_orig_basenames. */
  datatype Worker =
    | Ready
    | Scanning(j: nat, seen: set<string>)
    | Clearing(j: nat, seen: set<string>)
    | Done

  datatype State = State(flags: seq<bool>, workers: seq<Worker>)

  predicate Below(fs: seq<CoverFile>, x: nat, y: nat)
    requires x < |fs| && y < |fs|
  {
    forall h :: h in fs[x].hits ==> h in fs[y].hits
  }

  /** Worker w drops non-seed j: nothing in j is new to w, and w is not so large that j is kept for its size. */
  predicate Prunes(fs: seq<CoverFile>, w: nat, j: nat)
    requires w < |fs| && j < |fs|
  {
    w != j && !fs[j].isOrig && Below(fs, j, w) && |fs[w].hits| - |fs[j].hits| <= |fs[j].hits|
  }

  function Next(fs: seq<CoverFile>, flags: seq<bool>, w: nat, p: Worker): Worker
    requires w < |fs| == |flags|
  {
    match p
    case Ready => if flags[w] then Scanning(0, {}) else Done
    case Scanning(j, seen) =>
      if j >= |fs| then Done
      else if j == w || !flags[j] then Scanning(j + 1, seen)
      else if fs[j].isOrig then
        if fs[j].basename in seen then Clearing(j, seen) else Scanning(j + 1, seen + {fs[j].basename})
      else if Prunes(fs, w, j) then Clearing(j, seen)
      else Scanning(j + 1, seen)
    case Clearing(j, seen) => Scanning(j + 1, seen)
    case Done => Done
  }

  function NextFlags(flags: seq<bool>, p: Worker): seq<bool> {
    if p.Clearing? && p.j < |flags| then flags[p.j := false] else flags
  }

  predicate Shaped(fs: seq<CoverFile>, s: State) {
    |s.flags| == |fs| && |s.workers| == |fs|
  }

  /** One atomic step of worker w. A finished (or absent) worker has no step left. */
  function Step(fs: seq<CoverFile>, s: State, w: nat): (r: State)
    requires Shaped(fs, s)
    ensures Shaped(fs, r)
  {
    if w < |fs| then
      State(NextFlags(s.flags, s.workers[w]), s.workers[w := Next(fs, s.flags, w, s.workers[w])])
    else s
  }

  function Init(fs: seq<CoverFile>): (s: State)
    ensures Shaped(fs, s)
  {
    State(seq(|fs|, i => true), seq(|fs|, i => Ready))
  }

  function Exec(fs: seq<CoverFile>, schedule: seq<nat>): (s: State)
    ensures Shaped(fs, s)
  {
    if schedule == [] then Init(fs)
    else Step(fs, Exec(fs, schedule[..|schedule| - 1]), schedule[|schedule| - 1])
  }

  predicate Complete(s: State) {
    forall w :: 0 <= w < |s.workers| ==> s.workers[w].Done?
  }

  lemma ExecAppend(fs: seq<CoverFile>, schedule: seq<nat>, w: nat)
    ensures Exec(fs, schedule + [w]) == Step(fs, Exec(fs, schedule), w)
  {
    assert (schedule + [w])[..|schedule|] == schedule;
  }

  // ---- Which flags can be cleared at all ----

  /** What lets worker w clear flag j when nothing else has been cleared. */
  ghost predicate ClearableBy(fs: seq<CoverFile>, w: nat, j: nat)
    requires w < |fs| && j < |fs|
  {
    if fs[j].isOrig then w != j && exists i :: EarlierSeed(fs, i, j) && i != w
    else Prunes(fs, w, j)
  }

  predicate EarlierSeed(fs: seq<CoverFile>, i: nat, j: nat)
    requires j < |fs|
  {
    i < j && fs[i].isOrig && fs[j].isOrig && fs[i].basename == fs[j].basename
  }

  ghost predicate Clearable(fs: seq<CoverFile>, j: nat)
    requires j < |fs|
  {
    exists w :: 0 <= w < |fs| && ClearableBy(fs, w, j)
  }

  ghost predicate OnlyClearableGone(fs: seq<CoverFile>, s: State)
    requires Shaped(fs, s)
  {
    && (forall j :: 0 <= j < |fs| && !s.flags[j] ==> Clearable(fs, j))
    && (forall w :: 0 <= w < |fs| && s.workers[w].Clearing? ==>
          s.workers[w].j < |fs| && ClearableBy(fs, w, s.workers[w].j))
    && (forall w :: 0 <= w < |fs| ==> SeenJustified(fs, w, s.workers[w]))
  }

  /** Every basename a worker remembers comes from a seed it has passed. */
  ghost predicate SeenJustified(fs: seq<CoverFile>, w: nat, p: Worker)
    requires w < |fs|
  {
    (p.Scanning? || p.Clearing?) ==>
      p.j <= |fs| && forall b :: b in p.seen ==>
        exists i :: 0 <= i < p.j && i != w && fs[i].isOrig && fs[i].basename == b
  }

  lemma OnlyClearableGoneStep(fs: seq<CoverFile>, s: State, w: nat)
    requires Shaped(fs, s) && OnlyClearableGone(fs, s)
    ensures OnlyClearableGone(fs, Step(fs, s, w))
  {
    if w < |fs| {
      var p := s.workers[w];
      assert SeenJustified(fs, w, p);
      if p.Scanning? && p.j < |fs| && p.j != w && s.flags[p.j] {
        if fs[p.j].isOrig && fs[p.j].basename in p.seen {
          var i :| 0 <= i < p.j && i != w && fs[i].isOrig && fs[i].basename == fs[p.j].basename;
          assert EarlierSeed(fs, i, p.j);
        }
        var q := Next(fs, s.flags, w, p);
        assert SeenJustified(fs, w, q);
      }
    }
  }

  /** In every interleaving a flag that has been cleared is one some worker could clear on its own. */
  lemma {:induction false} OnlyClearableCleared(fs: seq<CoverFile>, schedule: seq<nat>)
    ensures OnlyClearableGone(fs, Exec(fs, schedule))
  {
    if schedule != [] {
      var before := schedule[..|schedule| - 1];
      OnlyClearableCleared(fs, before);
      OnlyClearableGoneStep(fs, Exec(fs, before), schedule[|schedule| - 1]);
    }
  }

  // ---- The interleaving that clears everything clearable ----

  /** Basenames worker w has recorded on reaching j when it found every flag up to j set. */
  function SeenAt(fs: seq<CoverFile>, w: nat, j: nat): set<string> {
    set i | 0 <= i < j && i < |fs| && i != w && fs[i].isOrig :: fs[i].basename
  }

  lemma SeenIsEarlierSeed(fs: seq<CoverFile>, w: nat, j: nat)
    requires w < |fs| && j < |fs| && fs[j].isOrig && w != j
    ensures fs[j].basename in SeenAt(fs, w, j) <==> ClearableBy(fs, w, j)
  {
    if ClearableBy(fs, w, j) {
      var i :| EarlierSeed(fs, i, j) && i != w;
    }
    if fs[j].basename in SeenAt(fs, w, j) {
      var i :| 0 <= i < j && i < |fs| && i != w && fs[i].isOrig && fs[i].basename == fs[j].basename;
      assert EarlierSeed(fs, i, j);
    }
  }

  /** All workers stand at file j, and exactly the clearable files before j have been cleared. */
  ghost predicate Abreast(fs: seq<CoverFile>, s: State, j: nat) {
    && Shaped(fs, s) && j <= |fs|
    && (forall i :: 0 <= i < |fs| ==> (s.flags[i] <==> i >= j || !Clearable(fs, i)))
    && (forall w :: 0 <= w < |fs| ==> s.workers[w] == Scanning(j, SeenAt(fs, w, j)))
  }

  ghost function AfterRead(fs: seq<CoverFile>, w: nat, j: nat): Worker
    requires w < |fs| && j < |fs|
  {
    if ClearableBy(fs, w, j) then Clearing(j, SeenAt(fs, w, j)) else Scanning(j + 1, SeenAt(fs, w, j + 1))
  }

  lemma ReadStep(fs: seq<CoverFile>, flags: seq<bool>, w: nat, j: nat)
    requires w < |fs| == |flags| && j < |fs| && flags[j]
    ensures Next(fs, flags, w, Scanning(j, SeenAt(fs, w, j))) == AfterRead(fs, w, j)
  {
    SeenAtNext(fs, w, j);
    if w != j && fs[j].isOrig {
      SeenIsEarlierSeed(fs, w, j);
    }
  }

  lemma SeenAtNext(fs: seq<CoverFile>, w: nat, j: nat)
    requires j < |fs|
    ensures SeenAt(fs, w, j + 1) == SeenAt(fs, w, j) + (if j != w && fs[j].isOrig then {fs[j].basename} else {})
  {
    var a := SeenAt(fs, w, j + 1);
    var b := SeenAt(fs, w, j) + (if j != w && fs[j].isOrig then {fs[j].basename} else {});
    forall x | x in a ensures x in b {
      var i :| 0 <= i < j + 1 && i < |fs| && i != w && fs[i].isOrig && fs[i].basename == x;
    }
    forall x | x in b ensures x in a {
      if x in SeenAt(fs, w, j) {
        var i :| 0 <= i < j && i < |fs| && i != w && fs[i].isOrig && fs[i].basename == x;
      } else {
        assert fs[j].basename == x;
      }
    }
  }

  /** Every worker reads flag j before any of them writes. */
  lemma {:induction false} AllRead(fs: seq<CoverFile>, schedule: seq<nat>, j: nat, k: nat) returns (longer: seq<nat>)
    requires j < |fs| && k <= |fs| && Abreast(fs, Exec(fs, schedule), j)
    ensures Exec(fs, longer).flags == Exec(fs, schedule).flags
    ensures forall w :: 0 <= w < |fs| ==>
      Exec(fs, longer).workers[w] == if w < k then AfterRead(fs, w, j) else Scanning(j, SeenAt(fs, w, j))
  {
    if k == 0 {
      longer := schedule;
    } else {
      var shorter := AllRead(fs, schedule, j, k - 1);
      longer := shorter + [k - 1];
      ExecAppend(fs, shorter, k - 1);
      ReadStep(fs, Exec(fs, shorter).flags, k - 1, j);
    }
  }

  /** Then every worker that decided to clear j writes. */
  lemma {:induction false} AllWrite(fs: seq<CoverFile>, schedule: seq<nat>, j: nat, k: nat) returns (longer: seq<nat>)
    requires j < |fs| && k <= |fs|
    requires forall w :: 0 <= w < |fs| ==> Exec(fs, schedule).workers[w] == AfterRead(fs, w, j)
    requires Exec(fs, schedule).flags[j]
    ensures forall i :: 0 <= i < |fs| && i != j ==> Exec(fs, longer).flags[i] == Exec(fs, schedule).flags[i]
    ensures Exec(fs, longer).flags[j] <==> forall w :: 0 <= w < k ==> !ClearableBy(fs, w, j)
    ensures forall w :: 0 <= w < |fs| ==>
      Exec(fs, longer).workers[w] == if w < k then Scanning(j + 1, SeenAt(fs, w, j + 1)) else AfterRead(fs, w, j)
  {
    if k == 0 {
      longer := schedule;
    } else {
      longer := AllWrite(fs, schedule, j, k - 1);
      if ClearableBy(fs, k - 1, j) {
        ExecAppend(fs, longer, k - 1);
        assert Exec(fs, longer).workers[k - 1] == AfterRead(fs, k - 1, j);
        WriteStep(fs, Exec(fs, longer), k - 1, j);
        longer := longer + [k - 1];
      }
    }
  }

  lemma WriteStep(fs: seq<CoverFile>, s: State, w: nat, j: nat)
    requires Shaped(fs, s) && w < |fs| && j < |fs| && ClearableBy(fs, w, j)
    requires s.workers[w] == Clearing(j, SeenAt(fs, w, j))
    ensures Step(fs, s, w) == State(s.flags[j := false], s.workers[w := Scanning(j + 1, SeenAt(fs, w, j + 1))])
  {
    SeenAtNext(fs, w, j);
    if fs[j].isOrig {
      SeenIsEarlierSeed(fs, w, j);
    }
    assert SeenAt(fs, w, j + 1) == SeenAt(fs, w, j);
  }

  lemma {:induction false} StandAbreast(fs: seq<CoverFile>, j: nat) returns (schedule: seq<nat>)
    requires j <= |fs|
    ensures Abreast(fs, Exec(fs, schedule), j)
  {
    if j == 0 {
      schedule := AllStarted(fs, |fs|);
      forall w | 0 <= w < |fs| ensures SeenAt(fs, w, 0) == {} {}
    } else {
      var before := StandAbreast(fs, j - 1);
      var read := AllRead(fs, before, j - 1, |fs|);
      schedule := AllWrite(fs, read, j - 1, |fs|);
    }
  }

  lemma {:induction false} AllStarted(fs: seq<CoverFile>, k: nat) returns (schedule: seq<nat>)
    requires k <= |fs|
    ensures Exec(fs, schedule).flags == Init(fs).flags
    ensures forall w :: 0 <= w < |fs| ==> Exec(fs, schedule).workers[w] == if w < k then Scanning(0, {}) else Ready
  {
    if k == 0 {
      schedule := [];
    } else {
      var shorter := AllStarted(fs, k - 1);
      ExecAppend(fs, shorter, k - 1);
      schedule := shorter + [k - 1];
    }
  }

  lemma {:induction false} AllFinish(fs: seq<CoverFile>, schedule: seq<nat>, k: nat) returns (longer: seq<nat>)
    requires k <= |fs| && Abreast(fs, Exec(fs, schedule), |fs|)
    ensures Exec(fs, longer).flags == Exec(fs, schedule).flags
    ensures forall w :: 0 <= w < k ==> Exec(fs, longer).workers[w].Done?
    ensures forall w :: k <= w < |fs| ==> Exec(fs, longer).workers[w] == Exec(fs, schedule).workers[w]
  {
    if k == 0 {
      longer := schedule;
    } else {
      var shorter := AllFinish(fs, schedule, k - 1);
      ExecAppend(fs, shorter, k - 1);
      longer := shorter + [k - 1];
    }
  }

  /** Some interleaving clears every clearable flag. */
  lemma WorstInterleaving(fs: seq<CoverFile>) returns (schedule: seq<nat>)
    ensures Complete(Exec(fs, schedule))
    ensures forall j :: 0 <= j < |fs| ==> (Exec(fs, schedule).flags[j] <==> !Clearable(fs, j))
  {
    var abreast := StandAbreast(fs, |fs|);
    schedule := AllFinish(fs, abreast, |fs|);
  }

  // ---- Coverage ----

  ghost predicate Kept(fs: seq<CoverFile>, flags: seq<bool>, x: nat)
    requires |flags| == |fs| && x < |fs|
  {
    exists y :: 0 <= y < |fs| && flags[y] && Below(fs, x, y)
  }

  /** No hit is lost: every file's hits are contained in the hits of a file that is still flagged. */
  ghost predicate Preserved(fs: seq<CoverFile>, flags: seq<bool>)
    requires |flags| == |fs|
  {
    forall x :: 0 <= x < |fs| ==> Kept(fs, flags, x)
  }

  ghost predicate HasAnchor(fs: seq<CoverFile>, x: nat)
    requires x < |fs|
  {
    exists y :: 0 <= y < |fs| && !Clearable(fs, y) && Below(fs, x, y)
  }

  /** Every file lies below one that no worker can clear. */
  ghost predicate Anchored(fs: seq<CoverFile>) {
    forall x :: 0 <= x < |fs| ==> HasAnchor(fs, x)
  }

  /** The pool preserves coverage in every interleaving exactly when the files are anchored. */
  lemma PreservedIffAnchored(fs: seq<CoverFile>)
    ensures (forall schedule: seq<nat> :: Complete(Exec(fs, schedule)) ==> Preserved(fs, Exec(fs, schedule).flags))
       <==> Anchored(fs)
  {
    if Anchored(fs) {
      forall schedule: seq<nat> | Complete(Exec(fs, schedule)) ensures Preserved(fs, Exec(fs, schedule).flags) {
        AnchoredIsPreserved(fs, schedule);
      }
    } else {
      var schedule := WorstInterleaving(fs);
      var x :| 0 <= x < |fs| && !HasAnchor(fs, x);
      assert !Kept(fs, Exec(fs, schedule).flags, x);
    }
  }

  // ---- What the rules are, file by file ----

  /** Some file contains this one and has no more than twice its hits. */
  ghost predicate FitsInside(fs: seq<CoverFile>, g: nat)
    requires g < |fs|
  {
    exists f :: 0 <= f < |fs| && f != g && Below(fs, g, f) && |fs[f].hits| <= 2 * |fs[g].hits|
  }

  /** An earlier seed has the same name, and there is a third file whose worker can tell. */
  ghost predicate RepeatsSeed(fs: seq<CoverFile>, j: nat)
    requires j < |fs|
  {
    |fs| >= 3 && exists i :: 0 <= i < j && fs[i].isOrig && fs[i].basename == fs[j].basename
  }

  ghost predicate CanGo(fs: seq<CoverFile>, j: nat)
    requires j < |fs|
  {
    exists schedule: seq<nat> :: Complete(Exec(fs, schedule)) && !Exec(fs, schedule).flags[j]
  }

  /** A non-seed is small enough to be dropped exactly if some file contains it with at most twice its hits.
      Where all that contain it are larger, it is kept for its size at every moment of every interleaving. */
  lemma NonSeedGoesIfFits(fs: seq<CoverFile>, g: nat)
    requires g < |fs| && !fs[g].isOrig
    ensures CanGo(fs, g) <==> FitsInside(fs, g)
    ensures !FitsInside(fs, g) ==> forall schedule: seq<nat> :: Exec(fs, schedule).flags[g]
  {
    ClearableIfFits(fs, g);
    GoesIfClearable(fs, g);
  }

  lemma ClearableIfFits(fs: seq<CoverFile>, g: nat)
    requires g < |fs| && !fs[g].isOrig
    ensures Clearable(fs, g) <==> FitsInside(fs, g)
  {
    forall f | 0 <= f < |fs|
      ensures ClearableBy(fs, f, g) <==> f != g && Below(fs, g, f) && |fs[f].hits| <= 2 * |fs[g].hits|
    {
    }
  }

  lemma GoesIfClearable(fs: seq<CoverFile>, j: nat)
    requires j < |fs|
    ensures CanGo(fs, j) <==> Clearable(fs, j)
    ensures !Clearable(fs, j) ==> forall schedule: seq<nat> :: Exec(fs, schedule).flags[j]
  {
    hide Exec, Clearable, Complete;
    var worst := WorstInterleaving(fs);
    forall schedule: seq<nat> ensures !Clearable(fs, j) ==> Exec(fs, schedule).flags[j] {
      OnlyClearableCleared(fs, schedule);
      JustClearableGone(fs, Exec(fs, schedule), j);
    }
  }

  lemma JustClearableGone(fs: seq<CoverFile>, s: State, j: nat)
    requires Shaped(fs, s) && j < |fs| && OnlyClearableGone(fs, s)
    ensures !Clearable(fs, j) ==> s.flags[j]
  {
  }

  /** A seed can go exactly if it repeats an earlier one among three files or more; the first of its name is
      never dropped. */
  lemma SeedGoesIfRepeated(fs: seq<CoverFile>, j: nat)
    requires j < |fs| && fs[j].isOrig
    ensures CanGo(fs, j) <==> RepeatsSeed(fs, j)
    ensures !RepeatsSeed(fs, j) ==> forall schedule: seq<nat> :: Exec(fs, schedule).flags[j]
  {
    ClearableIfRepeated(fs, j);
    GoesIfClearable(fs, j);
  }

  lemma ClearableIfRepeated(fs: seq<CoverFile>, j: nat)
    requires j < |fs| && fs[j].isOrig
    ensures Clearable(fs, j) <==> RepeatsSeed(fs, j)
  {
    if Clearable(fs, j) {
      var w: nat :| w < |fs| && ClearableBy(fs, w, j);
      var i: nat :| EarlierSeed(fs, i, j) && i != w;
      assert fs[i].isOrig && |fs| >= 3;
    }
    if RepeatsSeed(fs, j) {
      var i: nat :| i < j && fs[i].isOrig && fs[i].basename == fs[j].basename;
      var w: nat := if i != 0 && j != 0 then 0 else if i != 1 && j != 1 then 1 else 2;
      assert EarlierSeed(fs, i, j) && i != w;
      assert ClearableBy(fs, w, j);
    }
  }

  /** Coverage even holds at every moment of the run, not only at its end. */
  lemma AnchoredIsPreserved(fs: seq<CoverFile>, schedule: seq<nat>)
    requires Anchored(fs)
    ensures Preserved(fs, Exec(fs, schedule).flags)
  {
    OnlyClearableCleared(fs, schedule);
    forall x | 0 <= x < |fs| ensures Kept(fs, Exec(fs, schedule).flags, x) {
      assert HasAnchor(fs, x);
      var y :| 0 <= y < |fs| && !Clearable(fs, y) && Below(fs, x, y);
    }
  }

  predicate SameHits(fs: seq<CoverFile>, x: nat, y: nat)
    requires x < |fs| && y < |fs|
  {
    Below(fs, x, y) && Below(fs, y, x)
  }

  /** What checkFileFirst aims at: no two non-seeds with the same hits. */
  ghost predicate NonSeedsDiffer(fs: seq<CoverFile>) {
    forall x, y :: 0 <= x < y < |fs| && !fs[x].isOrig && !fs[y].isOrig ==> !SameHits(fs, x, y)
  }

  /** Copies of one seed hit the same blocks in every instance. */
  ghost predicate SeedsAgree(fs: seq<CoverFile>) {
    forall i, j :: 0 <= i < j < |fs| && EarlierSeed(fs, i, j) ==> SameHits(fs, i, j)
  }

  ghost function HitSets(fs: seq<CoverFile>): seq<set<int>> {
    seq(|fs|, i requires 0 <= i < |fs| => ToSet(fs[i].hits))
  }

  lemma BelowIsSubset(fs: seq<CoverFile>, x: nat, y: nat)
    requires x < |fs| && y < |fs|
    ensures Below(fs, x, y) <==> HitSets(fs)[x] <= HitSets(fs)[y]
  {
    var hx, hy := HitSets(fs)[x], HitSets(fs)[y];
    if Below(fs, x, y) {
      forall h | h in hx ensures h in hy {
        assert h in fs[x].hits;
      }
    }
    if hx <= hy {
      forall h | h in fs[x].hits ensures h in fs[y].hits {
        assert h in hx && h in hy;
      }
    }
  }

  /** Above x there is a file with no strict superset. */
  lemma MaximalFile(fs: seq<CoverFile>, x: nat) returns (m: nat)
    requires x < |fs|
    ensures m < |fs| && Below(fs, x, m)
    ensures forall y :: 0 <= y < |fs| && Below(fs, m, y) ==> SameHits(fs, m, y)
  {
    m := MaximalAbove(HitSets(fs), x);
    BelowIsSubset(fs, x, m);
    forall y | 0 <= y < |fs| && Below(fs, m, y) ensures SameHits(fs, m, y) {
      BelowIsSubset(fs, m, y);
      BelowIsSubset(fs, y, m);
    }
  }

  lemma {:induction false} FirstSeed(fs: seq<CoverFile>, j: nat) returns (i: nat)
    requires j < |fs| && fs[j].isOrig
    ensures i <= j && fs[i].isOrig && fs[i].basename == fs[j].basename
    ensures forall k :: !EarlierSeed(fs, k, i)
    decreases j
  {
    if k :| EarlierSeed(fs, k, j) {
      i := FirstSeed(fs, k);
    } else {
      i := j;
    }
  }

  /** The promise of the script, in its own terms. */
  lemma DistinctNonSeedsAreAnchored(fs: seq<CoverFile>)
    requires NonSeedsDiffer(fs) && SeedsAgree(fs)
    ensures Anchored(fs)
  {
    forall x | 0 <= x < |fs| ensures HasAnchor(fs, x) {
      var m := MaximalFile(fs, x);
      if j :| 0 <= j < |fs| && fs[j].isOrig && SameHits(fs, m, j) {
        var i := FirstSeed(fs, j);
        if i != j {
          assert EarlierSeed(fs, i, j);
        }
        assert !Clearable(fs, i);
        assert Below(fs, x, i);
      } else {
        assert !Clearable(fs, m) by {
          if w :| 0 <= w < |fs| && ClearableBy(fs, w, m) {
            assert Prunes(fs, w, m);
            assert SameHits(fs, m, w);
            assert !fs[w].isOrig && !fs[m].isOrig;
            if w < m { assert SameHits(fs, w, m); }
            assert false;
          }
        }
      }
    }
  }

  /** In every interleaving no hit is lost, at any moment, when non-seeds differ and seeds agree. */
  lemma NoHitLost(fs: seq<CoverFile>, schedule: seq<nat>)
    requires NonSeedsDiffer(fs) && SeedsAgree(fs)
    ensures Preserved(fs, Exec(fs, schedule).flags)
  {
    DistinctNonSeedsAreAnchored(fs);
    AnchoredIsPreserved(fs, schedule);
  }

  /** Without the first condition two workers can drop each other's file: both hits are lost. */
  lemma EqualNonSeedsCanBothVanish() returns (fs: seq<CoverFile>, schedule: seq<nat>)
    ensures SeedsAgree(fs) && |fs| == 2
    ensures Complete(Exec(fs, schedule)) && !Exec(fs, schedule).flags[0] && !Exec(fs, schedule).flags[1]
    ensures !Preserved(fs, Exec(fs, schedule).flags)
  {
    fs := [CoverFile(false, "a", [7]), CoverFile(false, "b", [7])];
    schedule := WorstInterleaving(fs);
    assert ClearableBy(fs, 1, 0);
    assert ClearableBy(fs, 0, 1);
    assert Clearable(fs, 0) && Clearable(fs, 1);
    assert !Kept(fs, Exec(fs, schedule).flags, 0);
  }

  // ---- Survivors form a reduced family ----

  /** What worker w has already settled, up to file j. */
  ghost predicate SettledTo(fs: seq<CoverFile>, flags: seq<bool>, w: nat, j: nat)
    requires |flags| == |fs| && w < |fs|
  {
    && (forall g :: 0 <= g < |fs| && g < j && Prunes(fs, w, g) ==> !flags[g])
    && (forall i, k :: 0 <= i < k < |fs| && k < j && i != w && k != w && EarlierSeed(fs, i, k) ==>
      !flags[i] || !flags[k])
  }

  ghost predicate Settled(fs: seq<CoverFile>, s: State, w: nat)
    requires Shaped(fs, s) && w < |fs|
  {
    match s.workers[w]
    case Ready => true
    case Scanning(j, seen) => j <= |fs| && SettledTo(fs, s.flags, w, j) && SeenCovers(fs, s.flags, w, j, seen)
    case Clearing(j, seen) => j < |fs| && SettledTo(fs, s.flags, w, j) && SeenCovers(fs, s.flags, w, j, seen) && j != w
        && (if fs[j].isOrig then fs[j].basename in seen else true)
    case Done => s.flags[w] ==> SettledTo(fs, s.flags, w, |fs|)
  }

  ghost predicate SeenCovers(fs: seq<CoverFile>, flags: seq<bool>, w: nat, j: nat, seen: set<string>)
    requires |flags| == |fs|
  {
    forall i :: 0 <= i < |fs| && i < j && i != w && fs[i].isOrig && flags[i] ==> fs[i].basename in seen
  }

  lemma SettledStep(fs: seq<CoverFile>, s: State, w: nat)
    requires Shaped(fs, s) && w < |fs|
    requires forall v :: 0 <= v < |fs| ==> Settled(fs, s, v)
    ensures forall v :: 0 <= v < |fs| ==> Settled(fs, Step(fs, s, w), v)
  {
    var t := Step(fs, s, w);
    forall v | 0 <= v < |fs| ensures Settled(fs, t, v) {
      assert Settled(fs, s, v);
      if v != w {
        assert t.workers[v] == s.workers[v];
      } else {
        SettledOwnStep(fs, s, w);
      }
    }
  }

  lemma SettledOwnStep(fs: seq<CoverFile>, s: State, w: nat)
    requires Shaped(fs, s) && w < |fs| && Settled(fs, s, w)
    ensures Settled(fs, Step(fs, s, w), w)
  {
    var t := Step(fs, s, w);
    match s.workers[w]
    case Ready =>
    case Done =>
    case Clearing(j, seen) =>
      assert SettledTo(fs, t.flags, w, j + 1);
    case Scanning(j, seen) =>
      if j < |fs| && (j == w || !s.flags[j] || !fs[j].isOrig || fs[j].basename !in seen) && !t.workers[w].Clearing? {
        assert SettledTo(fs, t.flags, w, j + 1);
      }
  }

  lemma {:induction false} AlwaysSettled(fs: seq<CoverFile>, schedule: seq<nat>)
    ensures forall v :: 0 <= v < |fs| ==> Settled(fs, Exec(fs, schedule), v)
  {
    if schedule != [] {
      var before := schedule[..|schedule| - 1];
      AlwaysSettled(fs, before);
      if schedule[|schedule| - 1] < |fs| {
        SettledStep(fs, Exec(fs, before), schedule[|schedule| - 1]);
      }
    }
  }

  /** In every interleaving, a surviving non-seed is not contained in another survivor
      unless that one has more than twice as many hits. */
  lemma SurvivorsAreReduced(fs: seq<CoverFile>, schedule: seq<nat>, f: nat, g: nat)
    requires Complete(Exec(fs, schedule))
    requires f < |fs| && g < |fs| && f != g && !fs[g].isOrig
    requires Exec(fs, schedule).flags[f] && Exec(fs, schedule).flags[g]
    ensures !Below(fs, g, f) || |fs[f].hits| > 2 * |fs[g].hits|
  {
    AlwaysSettled(fs, schedule);
    assert Settled(fs, Exec(fs, schedule), f);
  }

  /** A third survivor rules out two surviving copies of one seed. */
  lemma SeedsAppearOnce(fs: seq<CoverFile>, schedule: seq<nat>, f: nat, i: nat, k: nat)
    requires Complete(Exec(fs, schedule))
    requires f < |fs| && k < |fs| && EarlierSeed(fs, i, k) && f != i && f != k
    requires Exec(fs, schedule).flags[f] && Exec(fs, schedule).flags[i]
    ensures !Exec(fs, schedule).flags[k]
  {
    AlwaysSettled(fs, schedule);
    assert Settled(fs, Exec(fs, schedule), f);
  }

  // ---- Every run ends ----

  function Work(n: nat, p: Worker): nat {
    match p
    case Ready => 2 * n + 2
    case Scanning(j, _) => if j <= n then 2 * (n - j) + 1 else 1
    case Clearing(j, _) => if j < n then 2 * (n - j) else 2
    case Done => 0
  }

  function TotalWork(fs: seq<CoverFile>, s: State): nat
    requires Shaped(fs, s)
  {
    Sum(seq(|fs|, i requires 0 <= i < |fs| => Work(|fs|, s.workers[i])))
  }

  /** Each step of an unfinished worker uses up work, whatever the others do: no schedule runs for ever,
      and while work is left some worker can step. */
  lemma EveryStepProgresses(fs: seq<CoverFile>, schedule: seq<nat>, w: nat)
    requires w < |fs| && !Exec(fs, schedule).workers[w].Done?
    ensures TotalWork(fs, Exec(fs, schedule + [w])) < TotalWork(fs, Exec(fs, schedule))
  {
    var s := Exec(fs, schedule);
    var t := Step(fs, s, w);
    ExecAppend(fs, schedule, w);
    OnlyClearableCleared(fs, schedule);
    var n := |fs|;
    var a := seq(n, i requires 0 <= i < n => Work(n, s.workers[i]));
    var b := seq(n, i requires 0 <= i < n => Work(n, t.workers[i]));
    assert SeenJustified(fs, w, s.workers[w]);
    assert b == a[w := Work(n, t.workers[w])];
    SumUpdate(a, w, Work(n, t.workers[w]));
  }
}
