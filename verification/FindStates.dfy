/** The search of find_new_states.py through a tree of fuzzing workspaces: which of them hit blocks that
    neither the target nor any workspace nearer to the root hits, and which coverage files show it. */
module FindStates {
  import opened Collections

  type Hit = int
  datatype Cover = Cover(path: string, hits: seq<Hit>)

  /** What the disk holds: the entries of auto_ws in sorted order, and the coverage files of a workspace. */
  datatype Disk = Disk(target: seq<Cover>, names: seq<string>, covers: map<string, seq<Cover>>)

  function CoversOf(disk: Disk, ws: string): seq<Cover> {
    if ws in disk.covers then disk.covers[ws] else []
  }

  function HitsOf(covers: seq<Cover>): set<Hit> {
    if covers == [] then {} else HitsOf(covers[..|covers| - 1]) + ToSet(covers[|covers| - 1].hits)
  }

  /** Some of the files has the hit. */
  ghost predicate HitIn(covers: seq<Cover>, h: Hit) {
    exists i :: 0 <= i < |covers| && h in covers[i].hits
  }

  /** The hits of a list of files are those of all of them. */
  lemma {:induction false} HitsOfExact(covers: seq<Cover>, h: Hit)
    ensures h in HitsOf(covers) <==> HitIn(covers, h)
  {
    if covers != [] {
      var most, last := covers[..|covers| - 1], covers[|covers| - 1];
      HitsOfExact(most, h);
      assert forall i :: 0 <= i < |most| ==> most[i] == covers[i];
      assert h in last.hits <==> h in ToSet(last.hits);
    }
  }

  // ---- Names: next_ws_ and a state id, whose underscores count the steps from the target ----

  const PREFIX := "next_ws_"

  function Underscores(s: string): nat {
    if s == "" then 0 else (if s[0] == '_' then 1 else 0) + Underscores(s[1..])
  }

  lemma {:induction false} UnderscoresAppend(a: string, b: string)
    ensures Underscores(a + b) == Underscores(a) + Underscores(b)
  {
    if a == "" {
      assert a + b == b;
    } else {
      assert (a + b)[1..] == a[1..] + b;
      UnderscoresAppend(a[1..], b);
    }
  }

  lemma PrefixUnderscores(mask: string, name: string)
    requires mask <= name
    ensures Underscores(mask) <= Underscores(name)
  {
    assert name == mask + name[|mask|..];
    UnderscoresAppend(mask, name[|mask|..]);
  }

  /** The glob mask for the workspaces below a state; without a state, below the target. */
  function Mask(state: Option<string>): string {
    if state.None? then PREFIX else PREFIX + state.value + "_"
  }

  function Level(state: Option<string>): nat {
    if state.None? then 2 else Underscores(state.value) + 3
  }

  lemma MaskLevel(state: Option<string>)
    ensures Underscores(Mask(state)) == Level(state)
  {
    assert PREFIX == "next" + "_" + "ws" + "_";
    assert Underscores("next") == 0;
    assert Underscores("ws") == 0;
    assert Underscores("_") == 1;
    UnderscoresAppend("next", "_");
    UnderscoresAppend("next_", "ws");
    UnderscoresAppend("next_ws", "_");
    if state.Some? {
      UnderscoresAppend(PREFIX, state.value);
      UnderscoresAppend(PREFIX + state.value, "_");
    }
  }

  /** The workspaces looked at for a state: directly below it. */
  predicate IsNext(disk: Disk, state: Option<string>, ws: string) {
    ws in disk.names && Mask(state) <= ws && Underscores(ws) <= Level(state) && CoversOf(disk, ws) != []
  }

  lemma NextLevel(disk: Disk, state: Option<string>, ws: string)
    requires IsNext(disk, state, ws)
    ensures Underscores(ws) == Level(state) && PREFIX <= ws
    ensures state.Some? ==> |ws| > |PREFIX| + |state.value|
  {
    MaskLevel(state);
    PrefixUnderscores(Mask(state), ws);
  }

  // ---- What is new ----

  /** Hits of all workspaces that are nearer to the root than a level. */
  function Shallower(disk: Disk, names: seq<string>, level: nat): set<Hit> {
    if names == [] then {}
    else
      var before, name := Shallower(disk, names[..|names| - 1], level), names[|names| - 1];
      if PREFIX <= name && Underscores(name) < level then before + HitsOf(CoversOf(disk, name)) else before
  }

  /** Hits of a workspace that neither the target nor any workspace nearer to the root has. */
  function NewHits(disk: Disk, ws: string): set<Hit> {
    HitsOf(CoversOf(disk, ws)) - HitsOf(disk.target) - Shallower(disk, disk.names, Underscores(ws))
  }

  lemma {:induction false} ShallowerExact(disk: Disk, names: seq<string>, level: nat, h: Hit)
    ensures h in Shallower(disk, names, level) <==>
      exists name :: name in names && PREFIX <= name && Underscores(name) < level && h in HitsOf(CoversOf(disk, name))
  {
    if names != [] {
      var most, last := names[..|names| - 1], names[|names| - 1];
      ShallowerExact(disk, most, level, h);
      assert names == most + [last];
    }
  }

  /** What "new" means: some file of the workspace has the hit, and no file of the target or of any workspace
      nearer to the root has it. */
  ghost predicate IsNew(disk: Disk, ws: string, h: Hit) {
    && HitIn(CoversOf(disk, ws), h) && !HitIn(disk.target, h)
    && forall name :: name in disk.names && PREFIX <= name && Underscores(name) < Underscores(ws) ==>
         !HitIn(CoversOf(disk, name), h)
  }

  lemma NewHitsExact(disk: Disk, ws: string, h: Hit)
    ensures h in NewHits(disk, ws) <==> IsNew(disk, ws, h)
  {
    hide HitsOf, HitIn;
    ShallowerExact(disk, disk.names, Underscores(ws), h);
    HitsOfExact(CoversOf(disk, ws), h);
    HitsOfExact(disk.target, h);
    forall name {
      HitsOfExact(CoversOf(disk, name), h);
    }
  }

  ghost predicate SameNew(disk: Disk, a: string, b: string) {
    forall h :: IsNew(disk, a, h) <==> IsNew(disk, b, h)
  }

  lemma SameNewExact(disk: Disk, a: string, b: string)
    ensures SameNew(disk, a, b) <==> NewHits(disk, a) == NewHits(disk, b)
  {
    hide IsNew, HitsOf, Shallower, Underscores;
    forall h
      ensures h in NewHits(disk, a) <==> IsNew(disk, a, h)
      ensures h in NewHits(disk, b) <==> IsNew(disk, b, h)
    {
      NewHitsExact(disk, a, h);
      NewHitsExact(disk, b, h);
    }
    if SameNew(disk, a, b) {
      forall h ensures h in NewHits(disk, a) <==> h in NewHits(disk, b) {
        assert IsNew(disk, a, h) <==> IsNew(disk, b, h);
      }
    } else {
      var h :| IsNew(disk, a, h) != IsNew(disk, b, h);
      assert (h in NewHits(disk, a)) != (h in NewHits(disk, b));
    }
  }

  /** There is nothing above the first level. */
  lemma {:induction false} NothingAboveFirst(disk: Disk, names: seq<string>)
    ensures Shallower(disk, names, 2) == {}
  {
    if names != [] {
      var name := names[|names| - 1];
      NothingAboveFirst(disk, names[..|names| - 1]);
      if PREFIX <= name {
        MaskLevel(None);
        PrefixUnderscores(PREFIX, name);
      }
    }
  }

  // ---- Collecting hits ----

  /** Adds the hits of the files to a list, each once. */
  method AddHits(list: seq<Hit>, covers: seq<Cover>) returns (hits: seq<Hit>)
    requires Distinct(list)
    ensures Distinct(hits) && ToSet(hits) == ToSet(list) + HitsOf(covers)
    ensures forall h :: h in hits <==> h in list || HitIn(covers, h)
  {
    hide HitIn;
    hits := list;
    for k := 0 to |covers|
      invariant Distinct(hits) && ToSet(hits) == ToSet(list) + HitsOf(covers[..k])
    {
      hits := AddFile(hits, covers[k].hits);
      assert covers[..k + 1][..k] == covers[..k];
    }
    assert covers[..|covers|] == covers;
    forall h ensures h in hits <==> h in list || HitIn(covers, h) {
      HitsOfExact(covers, h);
      assert h in hits <==> h in ToSet(hits);
    }
  }

  method AddFile(list: seq<Hit>, file: seq<Hit>) returns (hits: seq<Hit>)
    requires Distinct(list)
    ensures Distinct(hits) && ToSet(hits) == ToSet(list) + ToSet(file)
  {
    hits := list;
    for j := 0 to |file|
      invariant Distinct(hits) && ToSet(hits) == ToSet(list) + ToSet(file[..j])
    {
      assert file[..j + 1] == file[..j] + [file[j]];
      assert ToSet(file[..j + 1]) == ToSet(file[..j]) + {file[j]};
      if file[j] !in hits {
        assert ToSet(hits + [file[j]]) == ToSet(hits) + {file[j]};
        hits := hits + [file[j]];
      }
    }
    assert file[..|file|] == file;
  }

  /** Some file of the target, or of a workspace nearer to the root than this level, has the hit. */
  ghost predicate IsKnown(disk: Disk, level: nat, h: Hit) {
    HitIn(disk.target, h)
    || exists name ::
         name in disk.names && PREFIX <= name && Underscores(name) < level && HitIn(CoversOf(disk, name), h)
  }

  lemma KnownExact(disk: Disk, level: nat, h: Hit)
    ensures h in HitsOf(disk.target) + Shallower(disk, disk.names, level) <==> IsKnown(disk, level, h)
  {
    hide HitsOf, HitIn, Shallower, Underscores;
    ShallowerExact(disk, disk.names, level, h);
    HitsOfExact(disk.target, h);
    forall name {
      HitsOfExact(CoversOf(disk, name), h);
    }
  }

  /** Everything hit by the target and, below a state, by every workspace down to that state's level. */
  method Baseline(disk: Disk, state: Option<string>) returns (hits: seq<Hit>)
    ensures Distinct(hits) && ToSet(hits) == HitsOf(disk.target) + Shallower(disk, disk.names, Level(state))
    ensures forall h :: h in hits <==> IsKnown(disk, Level(state), h)
  {
    hide IsKnown, HitIn, HitsOf;
    hits := AddHits([], disk.target);
    if state.Some? {
      var levels := Underscores(state.value) + 2;
      ghost var start := ToSet(hits);
      for k := 0 to |disk.names|
        invariant Distinct(hits) && ToSet(hits) == start + Shallower(disk, disk.names[..k], Level(state))
      {
        var name := disk.names[k];
        assert disk.names[..k + 1][..k] == disk.names[..k];
        if PREFIX <= name && Underscores(name) <= levels {
          hits := AddHits(hits, CoversOf(disk, name));
        }
      }
      assert disk.names[..|disk.names|] == disk.names;
    } else {
      NothingAboveFirst(disk, disk.names);
    }
    forall h ensures h in hits <==> IsKnown(disk, Level(state), h) {
      KnownExact(disk, Level(state), h);
      assert h in hits <==> h in ToSet(hits);
    }
  }

  // ---- Workspaces with new hits ----

  /** An entry of new_ws_hits. */
  datatype Found = Found(ws: string, hits: seq<Hit>)

  ghost predicate IsFound(disk: Disk, state: Option<string>, f: Found) {
    IsNext(disk, state, f.ws) && Distinct(f.hits) && ToSet(f.hits) == NewHits(disk, f.ws) && f.hits != []
  }

  /** The hits of a list that another does not have. */
  method Missing(hits: seq<Hit>, baseline: seq<Hit>) returns (extra: seq<Hit>)
    requires Distinct(hits)
    ensures Distinct(extra) && ToSet(extra) == ToSet(hits) - ToSet(baseline)
  {
    extra := [];
    for j := 0 to |hits|
      invariant Distinct(extra) && ToSet(extra) == ToSet(hits[..j]) - ToSet(baseline)
    {
      assert hits[..j + 1] == hits[..j] + [hits[j]];
      assert ToSet(hits[..j + 1]) == ToSet(hits[..j]) + {hits[j]};
      if hits[j] !in baseline {
        assert ToSet(extra + [hits[j]]) == ToSet(extra) + {hits[j]};
        extra := extra + [hits[j]];
      }
    }
    assert hits[..|hits|] == hits;
  }

  lemma ExtraIsNew(disk: Disk, state: Option<string>, ws: string, baseline: seq<Hit>, extra: seq<Hit>)
    requires ToSet(baseline) == HitsOf(disk.target) + Shallower(disk, disk.names, Level(state))
    requires IsNext(disk, state, ws) && Distinct(extra)
    requires ToSet(extra) == HitsOf(CoversOf(disk, ws)) - ToSet(baseline)
    ensures if extra == [] then NewHits(disk, ws) == {} else IsFound(disk, state, Found(ws, extra))
  {
    hide IsNext;
    NextLevel(disk, state, ws);
    assert ToSet(extra) == NewHits(disk, ws);
  }

  method NewStates(disk: Disk, state: Option<string>, baseline: seq<Hit>) returns (found: seq<Found>)
    requires ToSet(baseline) == HitsOf(disk.target) + Shallower(disk, disk.names, Level(state))
    ensures forall i :: 0 <= i < |found| ==> IsFound(disk, state, found[i])
    ensures forall ws :: IsNext(disk, state, ws) && NewHits(disk, ws) != {} ==>
      exists i :: 0 <= i < |found| && found[i].ws == ws
    ensures Distinct(disk.names) ==> forall i, j :: 0 <= i < j < |found| ==> found[i].ws != found[j].ws
  {
    hide IsFound, NewHits, HitsOf, Shallower;
    found := [];
    for k := 0 to |disk.names|
      invariant forall i :: 0 <= i < |found| ==> IsFound(disk, state, found[i]) && found[i].ws in disk.names[..k]
      invariant Distinct(disk.names) ==> forall i, j :: 0 <= i < j < |found| ==> found[i].ws != found[j].ws
      invariant forall ws :: ws in disk.names[..k] && IsNext(disk, state, ws) && NewHits(disk, ws) != {} ==>
        exists i :: 0 <= i < |found| && found[i].ws == ws
    {
      var ws := disk.names[k];
      ghost var before := found;
      assert disk.names[..k + 1] == disk.names[..k] + [ws];
      if Mask(state) <= ws && Underscores(ws) <= Level(state) && CoversOf(disk, ws) != [] {
        var hits := AddHits([], CoversOf(disk, ws));
        var extra := Missing(hits, baseline);
        ExtraIsNew(disk, state, ws, baseline, extra);
        if extra != [] {
          found := found + [Found(ws, extra)];
          assert found[|found| - 1].ws == ws;
        }
      }
      assert forall i :: 0 <= i < |before| ==> found[i] == before[i];
    }
    assert disk.names[..|disk.names|] == disk.names;
  }

  // ---- The unique pass ----

  ghost predicate Represents(u: Found, f: Found) {
    ToSet(u.hits) == ToSet(f.hits)
  }

  ghost predicate AllRepresented(found: seq<Found>, unique: seq<Found>) {
    forall i :: 0 <= i < |found| ==> IsRepresented(unique, found[i])
  }

  ghost predicate IsRepresented(unique: seq<Found>, f: Found) {
    exists j :: 0 <= j < |unique| && Represents(unique[j], f)
  }

  /** One entry of each set of new hits is kept: no two kept have the same hits, and every entry has the
      same hits as one that is kept. */
  method Unique(found: seq<Found>) returns (unique: seq<Found>)
    requires forall i :: 0 <= i < |found| ==> Distinct(found[i].hits)
    ensures forall i :: 0 <= i < |unique| ==> unique[i] in found
    ensures forall i, j :: 0 <= i < j < |unique| ==> ToSet(unique[i].hits) != ToSet(unique[j].hits)
    ensures AllRepresented(found, unique)
  {
    unique := [];
    for k := 0 to |found|
      invariant forall i :: 0 <= i < |unique| ==> unique[i] in found
      invariant forall i, j :: 0 <= i < j < |unique| ==> ToSet(unique[i].hits) != ToSet(unique[j].hits)
      invariant forall i :: 0 <= i < k ==> IsRepresented(unique, found[i])
    {
      var already := InUnique(unique, found[k]);
      RepresentedByMore(unique, found, k);
      if !already {
        unique := unique + [found[k]];
      }
    }
  }

  lemma RepresentedByMore(unique: seq<Found>, found: seq<Found>, k: nat)
    requires k < |found| && forall i :: 0 <= i < k ==> IsRepresented(unique, found[i])
    ensures forall i :: 0 <= i < k + 1 ==> IsRepresented(unique + [found[k]], found[i])
  {
    var more := unique + [found[k]];
    assert Represents(more[|unique|], found[k]);
    forall i | 0 <= i < k ensures IsRepresented(more, found[i]) {
      var j :| 0 <= j < |unique| && Represents(unique[j], found[i]);
      assert Represents(more[j], found[i]);
    }
  }

  /** The script compares lengths and then looks for a hit that the other does not have. That decides
      equality as sets only because the lists hold no hit twice. */
  method InUnique(unique: seq<Found>, f: Found) returns (already: bool)
    requires Distinct(f.hits) && forall i :: 0 <= i < |unique| ==> Distinct(unique[i].hits)
    ensures already <==> IsRepresented(unique, f)
  {
    already := false;
    for j := 0 to |unique|
      invariant !already && forall i :: 0 <= i < j ==> !Represents(unique[i], f)
    {
      if |unique[j].hits| == |f.hits| {
        already := Contained(f.hits, unique[j].hits);
        if already {
          SameLengthContainedIsEqual(f.hits, unique[j].hits);
          assert Represents(unique[j], f);
          return;
        }
      }
      if Represents(unique[j], f) {
        DistinctCardinality(f.hits);
        DistinctCardinality(unique[j].hits);
      }
    }
  }

  // ---- Coverage files that show the new hits ----

  /** The files with at least one of the hits. */
  function Showing(covers: seq<Cover>, hits: set<Hit>): seq<Cover> {
    if covers == [] then []
    else
      var before, c := Showing(covers[..|covers| - 1], hits), covers[|covers| - 1];
      if ToSet(c.hits) * hits != {} then before + [c] else before
  }

  lemma {:induction false} ShowingExact(covers: seq<Cover>, hits: set<Hit>)
    ensures forall c :: c in Showing(covers, hits) <==> c in covers && ToSet(c.hits) * hits != {}
  {
    if covers != [] {
      var most, c := covers[..|covers| - 1], covers[|covers| - 1];
      ShowingExact(most, hits);
      assert covers == most + [c];
    }
  }

  method WhoHitThese(covers: seq<Cover>, newHits: seq<Hit>) returns (these: seq<Cover>)
    ensures these == Showing(covers, ToSet(newHits))
  {
    these := [];
    for k := 0 to |covers|
      invariant these == Showing(covers[..k], ToSet(newHits))
    {
      assert covers[..k + 1][..k] == covers[..k];
      var some := HitsOneOf(covers[k], newHits);
      if some {
        these := these + [covers[k]];
      }
    }
    assert covers[..|covers|] == covers;
  }

  method HitsOneOf(c: Cover, newHits: seq<Hit>) returns (some: bool)
    ensures some <==> ToSet(c.hits) * ToSet(newHits) != {}
  {
    some := false;
    for j := 0 to |newHits|
      invariant some <==> exists i :: 0 <= i < j && newHits[i] in c.hits
    {
      if newHits[j] in c.hits {
        some := true;
      }
    }
    if some {
      var i :| 0 <= i < |newHits| && newHits[i] in c.hits;
      assert newHits[i] in ToSet(c.hits) * ToSet(newHits);
    }
  }

  // ---- The search ----

  datatype Report = Report(ws: string, cover: Cover)

  /** A coverage file of a workspace that shows something new there. */
  ghost predicate Justified(disk: Disk, r: Report) {
    r.ws in disk.names && PREFIX <= r.ws && r.cover in CoversOf(disk, r.ws)
      && exists h :: h in r.cover.hits && IsNew(disk, r.ws, h)
  }

  ghost predicate Explains(disk: Disk, state: Option<string>, ws: string, h: Hit, r: Report) {
    IsNext(disk, state, r.ws) && SameNew(disk, r.ws, ws) && h in r.cover.hits
  }

  ghost predicate HasExplanation(disk: Disk, state: Option<string>, ws: string, h: Hit, reports: seq<Report>) {
    exists r :: r in reports && Explains(disk, state, ws, h, r)
  }

  /** Every new hit of every workspace below the state is in a file reported for a workspace with the same new hits. */
  ghost predicate AllExplained(disk: Disk, state: Option<string>, reports: seq<Report>) {
    forall ws, h :: IsNext(disk, state, ws) && IsNew(disk, ws, h) ==> HasExplanation(disk, state, ws, h, reports)
  }

  /** The state that a workspace stands for. */
  function StateOf(ws: string): string {
    if |ws| < 8 then "" else ws[8..]
  }

  function Longest(names: seq<string>): nat {
    if names == [] then 0
    else
      var n, last := Longest(names[..|names| - 1]), |names[|names| - 1]|;
      if last > n then last else n
  }

  lemma {:induction false} LongestBounds(names: seq<string>)
    ensures forall name :: name in names ==> |name| <= Longest(names)
  {
    if names != [] {
      LongestBounds(names[..|names| - 1]);
      assert names == names[..|names| - 1] + [names[|names| - 1]];
    }
  }

  /** How much longer the names below a state can be. */
  function Room(disk: Disk, state: Option<string>): nat {
    var used := if state.None? then 0 else 8 + |state.value|;
    if used > Longest(disk.names) then 0 else Longest(disk.names) + 1 - used
  }

  lemma RoomShrinks(disk: Disk, state: Option<string>, ws: string)
    requires IsNext(disk, state, ws)
    ensures PREFIX <= ws && Room(disk, Some(StateOf(ws))) < Room(disk, state)
  {
    NextLevel(disk, state, ws);
    LongestBounds(disk.names);
  }

  ghost predicate Reported(disk: Disk, u: Found, reports: seq<Report>) {
    forall h :: h in NewHits(disk, u.ws) ==> exists r :: r in reports && r.ws == u.ws && h in r.cover.hits
  }

  function Tagged(ws: string, covers: seq<Cover>): seq<Report> {
    seq(|covers|, i requires 0 <= i < |covers| => Report(ws, covers[i]))
  }

  /** With one file of a workspace every other that shows something new there is reported. */
  ghost predicate AllFiles(disk: Disk, reports: seq<Report>) {
    forall r, c :: r in reports && c in CoversOf(disk, r.ws) && (exists h :: h in c.hits && IsNew(disk, r.ws, h)) ==>
      Report(r.ws, c) in reports
  }

  lemma MoreFiles(disk: Disk, reports: seq<Report>, own: seq<Report>, more: seq<Report>)
    requires AllFiles(disk, reports) && AllFiles(disk, own) && AllFiles(disk, more)
    ensures AllFiles(disk, reports + own + more)
  {
    hide IsNew;
  }

  lemma TaggedAllFiles(disk: Disk, ws: string)
    ensures AllFiles(disk, Tagged(ws, Showing(CoversOf(disk, ws), NewHits(disk, ws))))
  {
    hide IsNew, Showing;
    var covers, newHits := CoversOf(disk, ws), NewHits(disk, ws);
    var shown := Showing(covers, newHits);
    var rs := Tagged(ws, shown);
    ShowingExact(covers, newHits);
    forall c | c in covers && exists h :: h in c.hits && IsNew(disk, ws, h) ensures Report(ws, c) in rs {
      var h :| h in c.hits && IsNew(disk, ws, h);
      NewHitsExact(disk, ws, h);
      assert h in ToSet(c.hits) * newHits;
      var i :| 0 <= i < |shown| && shown[i] == c;
      assert rs[i] == Report(ws, c);
    }
  }

  lemma ShowsNew(disk: Disk, ws: string, c: Cover)
    requires ToSet(c.hits) * NewHits(disk, ws) != {}
    ensures exists h :: h in c.hits && IsNew(disk, ws, h)
  {
    hide IsNew;
    var both := ToSet(c.hits) * NewHits(disk, ws);
    var h := ExtraElement({}, both);
    NewHitsExact(disk, ws, h);
    assert h in c.hits;
  }

  /** The files reported for one workspace show all that is new there. */
  lemma TaggedReports(disk: Disk, state: Option<string>, u: Found)
    requires IsFound(disk, state, u)
    ensures var rs := Tagged(u.ws, Showing(CoversOf(disk, u.ws), NewHits(disk, u.ws)));
      Reported(disk, u, rs) && forall r :: r in rs ==> r.ws == u.ws && Justified(disk, r)
  {
    hide IsNew, Underscores, Showing;
    var covers, newHits := CoversOf(disk, u.ws), NewHits(disk, u.ws);
    var shown := Showing(covers, newHits);
    var rs := Tagged(u.ws, shown);
    NextLevel(disk, state, u.ws);
    ShowingExact(covers, newHits);
    forall i | 0 <= i < |rs| ensures Justified(disk, rs[i]) {
      assert shown[i] in shown;
      ShowsNew(disk, u.ws, shown[i]);
    }
    forall h | h in newHits ensures exists r :: r in rs && r.ws == u.ws && h in r.cover.hits {
      HitsOfExact(covers, h);
      var at :| 0 <= at < |covers| && h in covers[at].hits;
      var c := covers[at];
      assert h in ToSet(c.hits) * newHits;
      var i :| 0 <= i < |shown| && shown[i] == c;
      assert rs[i] in rs && rs[i].cover == c;
    }
  }

  lemma SomethingReported(disk: Disk, state: Option<string>, u: Found, own: seq<Report>)
    requires IsFound(disk, state, u) && Reported(disk, u, own)
    ensures own != []
  {
    var h := u.hits[0];
    assert h in ToSet(u.hits);
    assert h in NewHits(disk, u.ws);
    assert exists r :: r in own && r.ws == u.ws && h in r.cover.hits;
  }

  lemma MoreReported(disk: Disk, u: Found, reports: seq<Report>, more: seq<Report>)
    requires Reported(disk, u, reports) && forall r :: r in reports ==> r in more
    ensures Reported(disk, u, more)
  {
    hide NewHits;
  }

  lemma MoreExplained(disk: Disk, state: Option<string>, reports: seq<Report>, more: seq<Report>)
    requires AllExplained(disk, state, reports) && forall r :: r in reports ==> r in more
    ensures AllExplained(disk, state, more)
  {
    hide IsNew, IsNext, Explains;
    forall ws, h | IsNext(disk, state, ws) && IsNew(disk, ws, h) ensures HasExplanation(disk, state, ws, h, more) {
      assert HasExplanation(disk, state, ws, h, reports);
    }
  }

  /** Each level is reported once per set of new hits. */
  ghost predicate NoRepeats(disk: Disk, state: Option<string>, reports: seq<Report>) {
    forall r, q :: r in reports && q in reports && IsNext(disk, state, r.ws) && IsNext(disk, state, q.ws) ==>
      (SameNew(disk, r.ws, q.ws) ==> r.ws == q.ws)
  }

  /** A report is for a workspace next to the state, or next to the one of another report. */
  ghost predicate Rooted(disk: Disk, state: Option<string>, reports: seq<Report>, r: Report) {
    IsNext(disk, state, r.ws) || exists q :: q in reports && IsNext(disk, Some(StateOf(q.ws)), r.ws)
  }

  ghost predicate AllRooted(disk: Disk, state: Option<string>, reports: seq<Report>) {
    forall r :: r in reports ==> Rooted(disk, state, reports, r)
  }

  lemma OwnAreRooted(disk: Disk, state: Option<string>, ws: string, reports: seq<Report>, own: seq<Report>,
      more: seq<Report>)
    requires AllRooted(disk, state, reports) && IsNext(disk, state, ws)
    requires forall r :: r in own ==> r.ws == ws
    requires more == [] || (own != [] && AllRooted(disk, Some(StateOf(ws)), more))
    ensures AllRooted(disk, state, reports + own + more)
  {
    hide IsNext;
    var all := reports + own + more;
    forall r | r in all ensures Rooted(disk, state, all, r) {
      if r in reports {
        assert Rooted(disk, state, reports, r);
      } else if r !in own {
        assert Rooted(disk, Some(StateOf(ws)), more, r);
        assert own[0] in own && own[0] in all;
      }
    }
  }

  // ---- Branches: a workspace and those below it ----

  predicate InBranch(ws: string, name: string) {
    name == ws || ws + "_" <= name
  }

  /** Two workspaces of one level have no workspace below them in common. */
  lemma BranchesApart(a: string, b: string, name: string)
    requires InBranch(a, name) && InBranch(b, name) && Underscores(a) == Underscores(b)
    ensures a == b
  {
    if |a| < |b| {
      LongerIsDeeper(a, b);
    } else if |b| < |a| {
      LongerIsDeeper(b, a);
    } else {
      assert name[..|a|] == a && name[..|b|] == b;
    }
  }

  lemma LongerIsDeeper(a: string, b: string)
    requires a + "_" <= b
    ensures Underscores(a) < Underscores(b)
  {
    UnderscoresAppend(a, "_");
    assert Underscores("_") == 1;
    PrefixUnderscores(a + "_", b);
  }

  /** What is next to a report of a branch is in that branch too, and not at its top. */
  lemma NextInBranch(disk: Disk, ws: string, q: string, r: string)
    requires PREFIX <= q && InBranch(ws, q) && IsNext(disk, Some(StateOf(q)), r)
    ensures InBranch(ws, r) && Underscores(ws) < Underscores(r)
  {
    assert Mask(Some(StateOf(q))) == q + "_";
    LongerIsDeeper(q, r);
    if q != ws {
      LongerIsDeeper(ws, q);
    }
  }

  ghost predicate AllInBranch(ws: string, reports: seq<Report>) {
    forall r :: r in reports ==> InBranch(ws, r.ws)
  }

  /** Every report is in the branch of one of the first k entries. */
  ghost predicate InBranches(unique: seq<Found>, k: nat, reports: seq<Report>)
    requires k <= |unique|
  {
    forall r :: r in reports ==> exists i :: 0 <= i < k && InBranch(unique[i].ws, r.ws)
  }

  ghost predicate OneLevel(unique: seq<Found>) {
    forall i, j :: 0 <= i < j < |unique| ==>
      unique[i].ws != unique[j].ws && Underscores(unique[i].ws) == Underscores(unique[j].ws)
  }

  /** No level anywhere below is reported twice for one set of new hits. */
  ghost predicate NoneRepeat(disk: Disk, reports: seq<Report>) {
    forall q :: q in reports ==> NoRepeats(disk, Some(StateOf(q.ws)), reports)
  }

  lemma NoneRepeatNext(disk: Disk, unique: seq<Found>, k: nat, reports: seq<Report>, own: seq<Report>,
      more: seq<Report>)
    requires k < |unique| && OneLevel(unique) && InBranches(unique, k, reports) && NoneRepeat(disk, reports)
    requires forall q :: q in reports + own + more ==> PREFIX <= q.ws
    requires (forall r :: r in own ==> r.ws == unique[k].ws) && AllInBranch(unique[k].ws, more)
    requires NoRepeats(disk, Some(StateOf(unique[k].ws)), more) && NoneRepeat(disk, more)
    ensures InBranches(unique, k + 1, reports + own + more) && NoneRepeat(disk, reports + own + more)
  {
    hide NewHits, SameNew, IsNext, StateOf, Underscores, InBranch;
    var all, u := reports + own + more, unique[k].ws;
    assert InBranch(u, u) by { TopInBranch(u); }
    forall r | r in all ensures exists i :: 0 <= i < k + 1 && InBranch(unique[i].ws, r.ws) {
      if r in reports {
        var i :| 0 <= i < k && InBranch(unique[i].ws, r.ws);
      } else {
        assert InBranch(unique[k].ws, r.ws);
      }
    }
    forall q | q in all ensures NoRepeats(disk, Some(StateOf(q.ws)), all) {
      var part := if q in reports then reports else more;
      forall r | r in all && IsNext(disk, Some(StateOf(q.ws)), r.ws) ensures r in part {
        NextInPart(disk, unique, k, reports, own, more, q, r);
      }
      assert NoRepeats(disk, Some(StateOf(q.ws)), part);
    }
  }

  lemma TopInBranch(ws: string)
    ensures InBranch(ws, ws)
  {
  }

  lemma NextInPart(disk: Disk, unique: seq<Found>, k: nat, reports: seq<Report>, own: seq<Report>,
      more: seq<Report>, q: Report, r: Report)
    requires k < |unique| && OneLevel(unique) && InBranches(unique, k, reports)
    requires q in reports + own + more && r in reports + own + more && PREFIX <= q.ws
    requires (forall r :: r in own ==> r.ws == unique[k].ws) && AllInBranch(unique[k].ws, more)
    requires IsNext(disk, Some(StateOf(q.ws)), r.ws)
    ensures if q in reports then r in reports else r in more
  {
    hide IsNext, StateOf, Underscores, InBranch;
    var u := unique[k].ws;
    TopInBranch(u);
    if q in reports {
      var i :| 0 <= i < k && InBranch(unique[i].ws, q.ws);
      NextInBranch(disk, unique[i].ws, q.ws, r.ws);
      if r !in reports {
        BranchesApart(unique[i].ws, u, r.ws);
      }
    } else {
      NextInBranch(disk, u, q.ws, r.ws);
      if r in reports {
        var i :| 0 <= i < k && InBranch(unique[i].ws, r.ws);
        BranchesApart(unique[i].ws, u, r.ws);
      }
    }
  }

  /** What has been done with the first k kept entries. */
  ghost predicate Searched(disk: Disk, state: Option<string>, recurse: bool, unique: seq<Found>, k: nat,
      reports: seq<Report>)
  {
    && k <= |unique|
    && (forall r :: r in reports ==> Justified(disk, r) && Underscores(r.ws) >= Level(state) && Mask(state) <= r.ws)
    && AllRooted(disk, state, reports) && AllFiles(disk, reports)
    && InBranches(unique, k, reports) && NoneRepeat(disk, reports)
    && (forall i :: 0 <= i < k ==> Reported(disk, unique[i], reports))
    && (forall r :: r in reports && IsNext(disk, state, r.ws) ==> exists i :: 0 <= i < k && unique[i].ws == r.ws)
    && (recurse ==> forall r :: r in reports ==> AllExplained(disk, Some(StateOf(r.ws)), reports))
    && (!recurse ==> forall r :: r in reports ==> IsNext(disk, state, r.ws))
  }

  /** Deeper workspaces are not next to this state. */
  lemma DeeperIsNotNext(disk: Disk, state: Option<string>, ws: string, r: Report)
    requires IsNext(disk, state, ws) && Underscores(r.ws) > Underscores(ws)
    ensures !IsNext(disk, state, r.ws)
  {
    NextLevel(disk, state, ws);
  }

  lemma LevelOfState(ws: string)
    requires PREFIX <= ws
    ensures Level(Some(StateOf(ws))) == Underscores(ws) + 1
  {
    MaskLevel(None);
    assert ws == PREFIX + StateOf(ws);
    UnderscoresAppend(PREFIX, StateOf(ws));
  }

  /** What the recursive call brings back. */
  ghost predicate Below(disk: Disk, ws: string, more: seq<Report>) {
    && (forall r :: r in more ==> Justified(disk, r) && Underscores(r.ws) > Underscores(ws))
    && AllExplained(disk, Some(StateOf(ws)), more) && AllRooted(disk, Some(StateOf(ws)), more)
    && AllFiles(disk, more) && NoRepeats(disk, Some(StateOf(ws)), more) && NoneRepeat(disk, more)
      && AllInBranch(ws, more)
    && forall r :: r in more ==> AllExplained(disk, Some(StateOf(r.ws)), more)
  }

  lemma JustifiedNames(disk: Disk, reports: seq<Report>)
    ensures (forall r :: r in reports ==> Justified(disk, r)) ==> forall r :: r in reports ==> PREFIX <= r.ws
  {
  }

  lemma NoneAreRepeated(disk: Disk, ws: string)
    ensures NoRepeats(disk, Some(StateOf(ws)), []) && NoneRepeat(disk, []) && AllInBranch(ws, []) && AllFiles(disk, [])
  {
  }

  lemma BranchUnderMask(disk: Disk, state: Option<string>, ws: string, reports: seq<Report>)
    requires IsNext(disk, state, ws) && AllInBranch(ws, reports)
    ensures forall r :: r in reports ==> Mask(state) <= r.ws
  {
  }

  /** The kept entries are different workspaces of one level. */
  lemma KeptOneLevel(disk: Disk, state: Option<string>, unique: seq<Found>)
    requires forall i :: 0 <= i < |unique| ==> IsFound(disk, state, unique[i])
    requires forall i, j :: 0 <= i < j < |unique| ==> ToSet(unique[i].hits) != ToSet(unique[j].hits)
    ensures OneLevel(unique)
  {
    hide NewHits, Underscores, IsNext, Level;
    forall i | 0 <= i < |unique| ensures Underscores(unique[i].ws) == Level(state) {
      NextLevel(disk, state, unique[i].ws);
    }
  }

  lemma SearchedNext(disk: Disk, state: Option<string>, recurse: bool, unique: seq<Found>, k: nat, reports: seq<Report>,
                     own: seq<Report>, more: seq<Report>)
    requires Searched(disk, state, recurse, unique, k, reports) && k < |unique| && IsFound(disk, state, unique[k])
    requires own == Tagged(unique[k].ws, Showing(CoversOf(disk, unique[k].ws), NewHits(disk, unique[k].ws)))
    requires OneLevel(unique)
    requires PREFIX <= unique[k].ws && if recurse then Below(disk, unique[k].ws, more) else more == []
    ensures Searched(disk, state, recurse, unique, k + 1, reports + own + more)
  {
    hide NewHits, AllExplained, AllRooted, AllFiles, NoRepeats, Justified, Reported, StateOf, Showing, Tagged, IsNext,
      Level,
      Mask;
    var u, all := unique[k], reports + own + more;
    TaggedReports(disk, state, u);
    SomethingReported(disk, state, u, own);
    OwnAreRooted(disk, state, u.ws, reports, own, more);
    JustifiedNames(disk, all);
    TaggedAllFiles(disk, u.ws);
    if !recurse {
      NoneAreRepeated(disk, u.ws);
    }
    MoreFiles(disk, reports, own, more);
    NoneRepeatNext(disk, unique, k, reports, own, more);
    BranchUnderMask(disk, state, u.ws, own + more);
    NextLevel(disk, state, u.ws);
    forall i | 0 <= i < k + 1 ensures Reported(disk, unique[i], all) {
      MoreReported(disk, unique[i], if i < k then reports else own, all);
    }
    forall r | r in more ensures !IsNext(disk, state, r.ws) {
      DeeperIsNotNext(disk, state, u.ws, r);
    }
    if recurse {
      forall r | r in all ensures AllExplained(disk, Some(StateOf(r.ws)), all) {
        MoreExplained(disk, Some(StateOf(r.ws)), if r in reports then reports else more, all);
      }
    }
  }

  /** What a search below a state promises. */
  ghost predicate Complete(disk: Disk, state: Option<string>, recurse: bool, reports: seq<Report>) {
    && (forall r :: r in reports ==> Justified(disk, r) && Underscores(r.ws) >= Level(state) && Mask(state) <= r.ws)
    && AllRooted(disk, state, reports) && AllFiles(disk, reports) && NoneRepeat(disk, reports)
    && (disk.target == [] ==> reports == [])
    && (disk.target != [] ==> AllExplained(disk, state, reports) && NoRepeats(disk, state, reports))
    && (recurse ==> forall r :: r in reports ==> AllExplained(disk, Some(StateOf(r.ws)), reports))
    && (!recurse ==> forall r :: r in reports ==> IsNext(disk, state, r.ws))
  }

  lemma SearchEnds(disk: Disk, state: Option<string>, recurse: bool, found: seq<Found>, unique: seq<Found>,
      reports: seq<Report>)
    requires Searched(disk, state, recurse, unique, |unique|, reports)
    requires forall i :: 0 <= i < |unique| ==> IsFound(disk, state, unique[i])
    requires forall i :: 0 <= i < |found| ==> IsFound(disk, state, found[i])
    requires forall ws :: IsNext(disk, state, ws) && NewHits(disk, ws) != {} ==>
      exists i :: 0 <= i < |found| && found[i].ws == ws
    requires forall i, j :: 0 <= i < j < |unique| ==> ToSet(unique[i].hits) != ToSet(unique[j].hits)
    requires AllRepresented(found, unique)
    requires disk.target != []
    ensures Complete(disk, state, recurse, reports)
  {
    hide NewHits, IsNew, IsNext, IsFound, Justified, AllExplained, AllRooted, AllFiles, AllRepresented, NoRepeats,
      StateOf, Level;
    forall ws, h | IsNext(disk, state, ws) && IsNew(disk, ws, h)
      ensures HasExplanation(disk, state, ws, h, reports)
    {
      NewHitsExact(disk, ws, h);
      var i :| 0 <= i < |found| && found[i].ws == ws;
      FoundIsExplained(disk, state, recurse, found, i, unique, reports, h);
    }
    AllExplainedIntro(disk, state, reports);
    KeptDiffer(disk, state, recurse, unique, reports);
  }

  lemma FoundIsExplained(disk: Disk, state: Option<string>, recurse: bool, found: seq<Found>, i: nat,
      unique: seq<Found>, reports: seq<Report>, h: Hit)
    requires Searched(disk, state, recurse, unique, |unique|, reports)
    requires forall j :: 0 <= j < |unique| ==> IsFound(disk, state, unique[j])
    requires i < |found| && IsFound(disk, state, found[i]) && AllRepresented(found, unique)
    requires h in NewHits(disk, found[i].ws)
    ensures HasExplanation(disk, state, found[i].ws, h, reports)
  {
    hide NewHits, IsNew, SameNew, IsNext, Justified, AllExplained, AllRooted, AllFiles, StateOf, Level;
    assert IsRepresented(unique, found[i]);
    var j :| 0 <= j < |unique| && Represents(unique[j], found[i]);
    assert IsFound(disk, state, unique[j]) && Reported(disk, unique[j], reports);
    var r :| r in reports && r.ws == unique[j].ws && h in r.cover.hits;
    SameNewExact(disk, r.ws, found[i].ws);
    assert Explains(disk, state, found[i].ws, h, r);
  }

  lemma KeptDiffer(disk: Disk, state: Option<string>, recurse: bool, unique: seq<Found>, reports: seq<Report>)
    requires Searched(disk, state, recurse, unique, |unique|, reports)
    requires forall i :: 0 <= i < |unique| ==> IsFound(disk, state, unique[i])
    requires forall i, j :: 0 <= i < j < |unique| ==> ToSet(unique[i].hits) != ToSet(unique[j].hits)
    ensures NoRepeats(disk, state, reports)
  {
    hide NewHits, IsNew, SameNew, IsNext, Justified, AllExplained, AllRooted, AllFiles, Reported, StateOf, Level;
    forall r, q | r in reports && q in reports && IsNext(disk, state, r.ws) && IsNext(disk, state, q.ws)
      ensures SameNew(disk, r.ws, q.ws) ==> r.ws == q.ws
    {
      SameNewExact(disk, r.ws, q.ws);
      var i :| 0 <= i < |unique| && unique[i].ws == r.ws;
      var j :| 0 <= j < |unique| && unique[j].ws == q.ws;
      assert IsFound(disk, state, unique[i]) && IsFound(disk, state, unique[j]);
    }
  }

  lemma AllExplainedIntro(disk: Disk, state: Option<string>, reports: seq<Report>)
    requires forall ws, h :: IsNext(disk, state, ws) && IsNew(disk, ws, h) ==>
      HasExplanation(disk, state, ws, h, reports)
    ensures AllExplained(disk, state, reports)
  {
  }

  lemma CompleteIsBelow(disk: Disk, ws: string, more: seq<Report>)
    requires disk.target != [] && PREFIX <= ws && Complete(disk, Some(StateOf(ws)), true, more)
    ensures Below(disk, ws, more)
  {
    hide AllExplained, AllRooted, AllFiles, NoRepeats, NoneRepeat, Justified, StateOf, Mask;
    LevelOfState(ws);
    MaskOfState(ws);
  }

  lemma MaskOfState(ws: string)
    requires PREFIX <= ws
    ensures Mask(Some(StateOf(ws))) == ws + "_"
  {
  }

  lemma NothingSearched(disk: Disk, state: Option<string>, recurse: bool)
    ensures disk.target == [] ==> Complete(disk, state, recurse, [])
    ensures forall unique :: Searched(disk, state, recurse, unique, 0, [])
  {
  }

  lemma FoundAreDistinct(disk: Disk, state: Option<string>, found: seq<Found>)
    requires forall i :: 0 <= i < |found| ==> IsFound(disk, state, found[i])
    ensures forall i :: 0 <= i < |found| ==> Distinct(found[i].hits)
  {
  }

  lemma KeptAreFound(disk: Disk, state: Option<string>, found: seq<Found>, unique: seq<Found>)
    requires forall i :: 0 <= i < |found| ==> IsFound(disk, state, found[i])
    requires forall i :: 0 <= i < |unique| ==> unique[i] in found
    ensures forall i :: 0 <= i < |unique| ==> IsFound(disk, state, unique[i])
  {
    hide IsFound;
  }

  lemma FoundIsNext(disk: Disk, state: Option<string>, u: Found)
    requires IsFound(disk, state, u)
    ensures IsNext(disk, state, u.ws) && ToSet(u.hits) == NewHits(disk, u.ws)
  {
  }

  /** The search below a state. */
  method Search(disk: Disk, state: Option<string>, recurse: bool) returns (reports: seq<Report>)
    ensures Complete(disk, state, recurse, reports)
    decreases Room(disk, state)
  {
    hide *;
    reports := [];
    NothingSearched(disk, state, recurse);
    if disk.target == [] {
      return;
    }
    var baseline := Baseline(disk, state);
    var found := NewStates(disk, state, baseline);
    FoundAreDistinct(disk, state, found);
    var unique := Unique(found);
    KeptAreFound(disk, state, found, unique);
    KeptOneLevel(disk, state, unique);
    for k := 0 to |unique|
      invariant Searched(disk, state, recurse, unique, k, reports)
    {
      var u := unique[k];
      FoundIsNext(disk, state, u);
      var these := WhoHitThese(CoversOf(disk, u.ws), u.hits);
      var more: seq<Report> := [];
      NextLevel(disk, state, u.ws);
      if recurse {
        RoomShrinks(disk, state, u.ws);
        more := Search(disk, Some(StateOf(u.ws)), recurse);
        CompleteIsBelow(disk, u.ws, more);
      }
      SearchedNext(disk, state, recurse, unique, k, reports, Tagged(u.ws, these), more);
      reports := reports + Tagged(u.ws, these) + more;
    }
    SearchEnds(disk, state, recurse, found, unique, reports);
  }
}
