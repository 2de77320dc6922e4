/** rmSubsets itself, working in place on the shared flag array, and the pool when it has one process. */
module DedupWorker {
  import opened Collections
  import opened DedupPool

  /** remaining_array read as booleans. */
  function Flags(remaining: seq<int>): seq<bool> {
    seq(|remaining|, i requires 0 <= i < |remaining| => remaining[i] != 0)
  }

  /** The flags left when worker w runs from program point p to its end with nobody else writing. */
  function RunAlone(fs: seq<CoverFile>, flags: seq<bool>, w: nat, p: Worker): (r: seq<bool>)
    requires w < |fs| == |flags|
    ensures |r| == |flags|
    decreases Work(|fs|, p)
  {
    if p.Done? || (p.Clearing? && p.j >= |fs|) then flags
    else RunAlone(fs, NextFlags(flags, p), w, Next(fs, flags, w, p))
  }

  /** What a worker that starts with these flags drops: a non-seed within its own file, with no less than half
      of its hits, and a seed that repeats the name of an earlier one that is flagged. */
  ghost predicate DropsAlone(fs: seq<CoverFile>, start: seq<bool>, w: nat, j: nat)
    requires w < |fs| == |start| && j < |fs|
  {
    j != w &&
    if fs[j].isOrig then NamedBefore(fs, start, w, j, fs[j].basename)
    else Below(fs, j, w) && |fs[w].hits| <= 2 * |fs[j].hits|
  }

  /** A flagged seed of this name, other than the worker's own, comes before file j. */
  ghost predicate NamedBefore(fs: seq<CoverFile>, start: seq<bool>, w: nat, j: nat, name: string)
    requires |fs| == |start|
  {
    exists i :: 0 <= i < j && i < |fs| && i != w && start[i] && fs[i].isOrig && fs[i].basename == name
  }

  /** The worker is at file j: it has dropped what it drops before, and knows the names of the seeds passed. */
  ghost predicate HalfWay(fs: seq<CoverFile>, start: seq<bool>, flags: seq<bool>, w: nat, j: nat, seen: set<string>)
    requires w < |fs| == |start| == |flags|
  {
    && j <= |fs| && (forall k :: 0 <= k < |fs| ==> (flags[k] <==> start[k] && !(k < j && DropsAlone(fs, start, w, k))))
    && forall name :: name in seen <==> NamedBefore(fs, start, w, j, name)
  }

  lemma NamedNext(fs: seq<CoverFile>, start: seq<bool>, w: nat, j: nat, name: string)
    requires |fs| == |start| && j < |fs|
    ensures NamedBefore(fs, start, w, j + 1, name) <==>
      NamedBefore(fs, start, w, j, name) || (j != w && start[j] && fs[j].isOrig && fs[j].basename == name)
  {
  }

  lemma OnFromScan(fs: seq<CoverFile>, start: seq<bool>, flags: seq<bool>, w: nat, j: nat, seen: set<string>)
    requires w < |fs| == |start| == |flags| && j < |fs| && HalfWay(fs, start, flags, w, j, seen)
    ensures var p := Next(fs, flags, w, Scanning(j, seen));
      if p.Clearing? then p == Clearing(j, seen) && HalfWay(fs, start, flags[j := false], w, j + 1, seen)
      else p.Scanning? && p.j == j + 1 && HalfWay(fs, start, flags, w, j + 1, p.seen)
  {
    hide NamedBefore, Below;
    forall name {
      NamedNext(fs, start, w, j, name);
    }
  }

  lemma {:induction false} AloneFrom(fs: seq<CoverFile>, start: seq<bool>, flags: seq<bool>, w: nat, j: nat,
      seen: set<string>)
    requires w < |fs| == |start| == |flags| && HalfWay(fs, start, flags, w, j, seen)
    ensures forall k :: 0 <= k < |fs| ==>
      (RunAlone(fs, flags, w, Scanning(j, seen))[k] <==> start[k] && !DropsAlone(fs, start, w, k))
    decreases |fs| - j
  {
    hide DropsAlone, HalfWay;
    AtEnd(fs, start, flags, w, j, seen);
    var p := Next(fs, flags, w, Scanning(j, seen));
    if j < |fs| {
      OnFromScan(fs, start, flags, w, j, seen);
      if p.Clearing? {
        AloneFrom(fs, start, flags[j := false], w, j + 1, seen);
        assert RunAlone(fs, flags, w, p) == RunAlone(fs, flags[j := false], w, Scanning(j + 1, seen));
      } else {
        AloneFrom(fs, start, flags, w, j + 1, p.seen);
      }
    } else {
      assert RunAlone(fs, flags, w, p) == flags;
    }
  }

  lemma AtEnd(fs: seq<CoverFile>, start: seq<bool>, flags: seq<bool>, w: nat, j: nat, seen: set<string>)
    requires w < |fs| == |start| == |flags| && HalfWay(fs, start, flags, w, j, seen)
    ensures j <= |fs|
    ensures j == |fs| ==> forall k :: 0 <= k < |fs| ==> (flags[k] <==> start[k] && !DropsAlone(fs, start, w, k))
  {
    hide DropsAlone;
  }

  /** The flags that a worker leaves when it has the array to itself: all it drops is gone, and nothing else. */
  lemma AloneExact(fs: seq<CoverFile>, start: seq<bool>, w: nat)
    requires w < |fs| == |start|
    ensures forall k :: 0 <= k < |fs| ==>
      (RunAlone(fs, start, w, Ready)[k] <==> start[k] && !(start[w] && DropsAlone(fs, start, w, k)))
  {
    hide DropsAlone;
    if start[w] {
      assert HalfWay(fs, start, start, w, 0, {});
      AloneFrom(fs, start, start, w, 0, {});
      assert RunAlone(fs, start, w, Ready) == RunAlone(fs, start, w, Scanning(0, {}));
    } else {
      assert RunAlone(fs, start, w, Ready) == RunAlone(fs, start, w, Done);
    }
  }

  /** One worker, from its start to its end, without interference. */
  method RmSubsets(fs: seq<CoverFile>, remaining: array<int>, f: nat)
    requires remaining.Length == |fs| && f < |fs|
    modifies remaining
    ensures Flags(remaining[..]) == RunAlone(fs, old(Flags(remaining[..])), f, Ready)
    ensures forall j :: 0 <= j < |fs| ==>
      (remaining[j] != 0 <==>
        old(remaining[j]) != 0 && !(old(remaining[f]) != 0 && DropsAlone(fs, old(Flags(remaining[..])), f, j)))
  {
    hide DropsAlone;
    ghost var start := Flags(remaining[..]);
    var didOrigBasenames: set<string> := {};
    if remaining[f] != 0 {
      assert Flags(remaining[..])[f];
      for j := 0 to |fs|
        invariant remaining.Length == |fs|
        invariant RunAlone(fs, start, f, Ready) == RunAlone(fs, Flags(remaining[..]), f, Scanning(j, didOrigBasenames))
      {
        ghost var flags := Flags(remaining[..]);
        assert flags[j] <==> remaining[j] != 0;
        if j == f || remaining[j] == 0 {
          continue;
        }
        if fs[j].isOrig {
          if fs[j].basename in didOrigBasenames {
            assert Next(fs, flags, f, Scanning(j, didOrigBasenames)) == Clearing(j, didOrigBasenames);
            remaining[j] := 0;
            assert Flags(remaining[..]) == flags[j := false];
          } else {
            didOrigBasenames := didOrigBasenames + {fs[j].basename};
          }
          continue;
        }
        var contained := Contained(fs[j].hits, fs[f].hits);
        assert contained <==> Below(fs, j, f);
        if contained && !(|fs[f].hits| - |fs[j].hits| > |fs[j].hits|) {
          assert Prunes(fs, f, j);
          assert Next(fs, flags, f, Scanning(j, didOrigBasenames)) == Clearing(j, didOrigBasenames);
          remaining[j] := 0;
          assert Flags(remaining[..]) == flags[j := false];
        } else {
          assert Next(fs, flags, f, Scanning(j, didOrigBasenames)) == Scanning(j + 1, didOrigBasenames);
        }
      }
    } else {
      assert !start[f];
    }
    AloneExact(fs, start, f);
    assert forall j :: 0 <= j < |fs| ==> (Flags(remaining[..])[j] <==> remaining[j] != 0);
  }

  // ---- One process: the tasks run one after the other ----

  /** Flags after tasks 0..k have run in turn. */
  function InTurn(fs: seq<CoverFile>, k: nat): (r: seq<bool>)
    requires k <= |fs|
    ensures |r| == |fs|
  {
    if k == 0 then Init(fs).flags else RunAlone(fs, InTurn(fs, k - 1), k - 1, Ready)
  }

  lemma InTurnNone(fs: seq<CoverFile>)
    ensures InTurn(fs, 0) == Init(fs).flags
  {
  }

  lemma InTurnNext(fs: seq<CoverFile>, k: nat)
    requires k < |fs|
    ensures InTurn(fs, k + 1) == RunAlone(fs, InTurn(fs, k), k, Ready)
  {
  }

  /** What is left at the end: every non-seed that fits inside no file, every seed that repeats none; and no
      non-seed inside another file that is left, unless that one is more than twice as large. */
  lemma LeftInTurn(fs: seq<CoverFile>)
    ensures forall g :: 0 <= g < |fs| && !fs[g].isOrig && !FitsInside(fs, g) ==> InTurn(fs, |fs|)[g]
    ensures forall j :: 0 <= j < |fs| && fs[j].isOrig && !RepeatsSeed(fs, j) ==> InTurn(fs, |fs|)[j]
    ensures forall f, g :: 0 <= f < |fs| && 0 <= g < |fs| && f != g && InTurn(fs, |fs|)[f] && InTurn(fs, |fs|)[g] ==>
      fs[g].isOrig || !Below(fs, g, f) || |fs[f].hits| > 2 * |fs[g].hits|
  {
    hide InTurn, FitsInside, RepeatsSeed, Below, Exec;
    var schedule := InTurnIsInterleaving(fs, |fs|);
    var left := InTurn(fs, |fs|);
    forall g | 0 <= g < |fs| && !fs[g].isOrig && !FitsInside(fs, g) ensures left[g] {
      NonSeedGoesIfFits(fs, g);
    }
    forall j | 0 <= j < |fs| && fs[j].isOrig && !RepeatsSeed(fs, j) ensures left[j] {
      SeedGoesIfRepeated(fs, j);
    }
    forall f, g | 0 <= f < |fs| && 0 <= g < |fs| && left[f] && left[g] && f != g && !fs[g].isOrig && Below(fs, g, f)
      ensures |fs[f].hits| > 2 * |fs[g].hits|
    {
      SurvivorsAreReduced(fs, schedule, f, g);
    }
  }

  /** The pool's map with one process, followed by the deletion of the cleared entries from hit_dict. */
  method DedupInTurn(fs: seq<CoverFile>) returns (survivors: seq<nat>)
    ensures forall i: nat :: i in survivors <==> i < |fs| && InTurn(fs, |fs|)[i]
    ensures forall a, b :: 0 <= a < b < |survivors| ==> survivors[a] < survivors[b]
    ensures forall g: nat :: g < |fs| && !fs[g].isOrig && !FitsInside(fs, g) ==> g in survivors
    ensures forall j: nat :: j < |fs| && fs[j].isOrig && !RepeatsSeed(fs, j) ==> j in survivors
    ensures forall f, g :: f in survivors && g in survivors && f != g ==>
      fs[g].isOrig || !Below(fs, g, f) || |fs[f].hits| > 2 * |fs[g].hits|
  {
    hide FitsInside, RepeatsSeed, InTurn, DropsAlone, Below;
    InTurnNone(fs);
    LeftInTurn(fs);
    var remaining := new int[|fs|](_ => 1);
    assert Flags(remaining[..]) == Init(fs).flags;
    for f := 0 to |fs|
      invariant Flags(remaining[..]) == InTurn(fs, f)
    {
      InTurnNext(fs, f);
      RmSubsets(fs, remaining, f);
    }
    survivors := [];
    for i := 0 to |fs|
      invariant Flags(remaining[..]) == InTurn(fs, |fs|)
      invariant forall a: nat :: a in survivors <==> a < i && InTurn(fs, |fs|)[a]
      invariant forall a, b :: 0 <= a < b < |survivors| ==> survivors[a] < survivors[b]
      invariant forall a :: 0 <= a < |survivors| ==> survivors[a] < i
    {
      assert Flags(remaining[..])[i] <==> remaining[i] != 0;
      if remaining[i] != 0 {
        survivors := survivors + [i];
      }
    }
  }

  /** Running a worker to its end alone is one of the pool's interleavings. */
  lemma {:induction false} AloneIsInterleaving(fs: seq<CoverFile>, schedule: seq<nat>, w: nat)
      returns (longer: seq<nat>)
    requires w < |fs|
    ensures Exec(fs, longer).flags == RunAlone(fs, Exec(fs, schedule).flags, w, Exec(fs, schedule).workers[w])
    ensures Exec(fs, longer).workers == Exec(fs, schedule).workers[w := Done]
    decreases Work(|fs|, Exec(fs, schedule).workers[w])
  {
    var p := Exec(fs, schedule).workers[w];
    if p.Done? {
      longer := schedule;
      assert Exec(fs, schedule).workers[w := Done] == Exec(fs, schedule).workers;
    } else {
      OnlyClearableCleared(fs, schedule);
      assert SeenJustified(fs, w, p);
      ExecAppend(fs, schedule, w);
      longer := AloneIsInterleaving(fs, schedule + [w], w);
    }
  }

  /** So everything proved of every interleaving holds of the pool with one process. */
  lemma {:induction false} InTurnIsInterleaving(fs: seq<CoverFile>, k: nat) returns (schedule: seq<nat>)
    requires k <= |fs|
    ensures Exec(fs, schedule).flags == InTurn(fs, k)
    ensures forall w :: 0 <= w < |fs| ==> Exec(fs, schedule).workers[w] == if w < k then Done else Ready
  {
    if k == 0 {
      schedule := [];
    } else {
      var before := InTurnIsInterleaving(fs, k - 1);
      schedule := AloneIsInterleaving(fs, before, k - 1);
    }
  }

  /** A worker that runs alone keeps its own flag, and whatever it clears lies below it or below a seed it keeps. */
  ghost predicate Replaced(fs: seq<CoverFile>, before: seq<bool>, after: seq<bool>)
    requires |before| == |after| == |fs|
  {
    forall x :: 0 <= x < |fs| && before[x] ==> Kept(fs, after, x)
  }

  lemma BelowTrans(fs: seq<CoverFile>, x: nat, y: nat, z: nat)
    requires x < |fs| && y < |fs| && z < |fs|
    requires Below(fs, x, y) && Below(fs, y, z)
    ensures Below(fs, x, z)
  {
  }

  ghost predicate SeenAlive(fs: seq<CoverFile>, flags: seq<bool>, w: nat, p: Worker)
    requires w < |fs| == |flags|
  {
    match p
    case Ready => true
    case Scanning(j, seen) => flags[w] && SeenAliveTo(fs, flags, w, j, seen)
    case Clearing(j, seen) =>
      && j < |fs| && flags[w] && flags[j] && j != w && SeenAliveTo(fs, flags, w, j, seen)
      && (if fs[j].isOrig then fs[j].basename in seen else Below(fs, j, w))
    case Done => true
  }

  ghost predicate SeenAliveTo(fs: seq<CoverFile>, flags: seq<bool>, w: nat, j: nat, seen: set<string>)
    requires |flags| == |fs|
  {
    forall b :: b in seen ==> exists i :: 0 <= i < j && i < |fs| && flags[i] && fs[i].isOrig && fs[i].basename == b
  }

  lemma {:induction false} AloneReplaces(fs: seq<CoverFile>, flags: seq<bool>, w: nat, p: Worker)
    requires w < |fs| == |flags|
    requires SeedsAgree(fs) && SeenAlive(fs, flags, w, p)
    ensures Replaced(fs, flags, RunAlone(fs, flags, w, p))
    decreases Work(|fs|, p)
  {
    if p.Done? || (p.Clearing? && p.j >= |fs|) {
    } else {
      var flags1, q := NextFlags(flags, p), Next(fs, flags, w, p);
      SeenAliveStep(fs, flags, w, p);
      AloneReplaces(fs, flags1, w, q);
      if p.Clearing? {
        var keeper := Keeper(fs, flags, w, p);
        forall x | 0 <= x < |fs| && flags[x] ensures Kept(fs, RunAlone(fs, flags, w, p), x) {
          if x == p.j {
            var y :| 0 <= y < |fs| && RunAlone(fs, flags1, w, q)[y] && Below(fs, keeper, y);
            BelowTrans(fs, x, keeper, y);
          } else {
            assert flags1[x];
          }
        }
      }
    }
  }

  lemma Keeper(fs: seq<CoverFile>, flags: seq<bool>, w: nat, p: Worker) returns (y: nat)
    requires w < |fs| == |flags| && p.Clearing?
    requires SeedsAgree(fs) && SeenAlive(fs, flags, w, p)
    ensures y < |fs| && NextFlags(flags, p)[y] && Below(fs, p.j, y)
  {
    if fs[p.j].isOrig {
      y :| 0 <= y < p.j && y < |fs| && flags[y] && fs[y].isOrig && fs[y].basename == fs[p.j].basename;
      assert EarlierSeed(fs, y, p.j);
    } else {
      y := w;
    }
  }

  lemma SeenAliveStep(fs: seq<CoverFile>, flags: seq<bool>, w: nat, p: Worker)
    requires w < |fs| == |flags| && SeenAlive(fs, flags, w, p)
    ensures SeenAlive(fs, NextFlags(flags, p), w, Next(fs, flags, w, p))
  {
    match p
    case Ready =>
    case Done =>
    case Clearing(j, seen) =>
      forall b | b in seen
        ensures exists i :: 0 <= i < j + 1 && i < |fs| && NextFlags(flags, p)[i] && fs[i].isOrig && fs[i].basename == b
      {
        var i :| 0 <= i < j && i < |fs| && flags[i] && fs[i].isOrig && fs[i].basename == b;
        assert NextFlags(flags, p)[i];
      }
    case Scanning(j, seen) =>
      var q := Next(fs, flags, w, p);
      if q.Scanning? {
        forall b | b in q.seen
          ensures exists i :: 0 <= i < q.j && i < |fs| && flags[i] && fs[i].isOrig && fs[i].basename == b
        {
          if b in seen {
            var i :| 0 <= i < j && i < |fs| && flags[i] && fs[i].isOrig && fs[i].basename == b;
            assert i < q.j;
          } else {
            assert flags[j] && fs[j].isOrig && fs[j].basename == b;
          }
        }
      }
  }

  /** With one process no hit is lost even among files with equal hit sets. */
  lemma {:induction false} InTurnLosesNoHit(fs: seq<CoverFile>, k: nat)
    requires k <= |fs| && SeedsAgree(fs)
    ensures Preserved(fs, InTurn(fs, k))
  {
    if k == 0 {
      forall x | 0 <= x < |fs| ensures Kept(fs, InTurn(fs, 0), x) {
        assert Below(fs, x, x);
      }
    } else {
      InTurnLosesNoHit(fs, k - 1);
      var before, after := InTurn(fs, k - 1), InTurn(fs, k);
      AloneReplaces(fs, before, k - 1, Ready);
      forall x | 0 <= x < |fs| ensures Kept(fs, after, x) {
        assert Kept(fs, before, x);
        var y :| 0 <= y < |fs| && before[y] && Below(fs, x, y);
        assert Kept(fs, after, y);
        var z :| 0 <= z < |fs| && after[z] && Below(fs, y, z);
        BelowTrans(fs, x, y, z);
      }
    }
  }
}
