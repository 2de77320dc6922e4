/** checkMulti of dedupCoverage.py: the second pruning pass, over the sessions that hit blocks
    no other coverage file hit. */
module CheckMulti {
  import opened Collections

  /** A coverage file: its hits in file order, and the packet that led to each of them. */
  datatype Session = Session(hits: seq<int>, packetNum: map<int, nat>)

  ghost predicate ValidSession(s: Session) {
    Distinct(s.hits) && s.packetNum.Keys == ToSet(s.hits)
  }

  /** multi_hits[f]: the hits of a file that are not among all_hits, in file order. */
  method NewHits(s: Session, allHits: seq<int>) returns (r: seq<int>)
    requires ValidSession(s)
    ensures Distinct(r)
    ensures ToSet(r) == New(s, allHits)
    ensures forall h :: h in r <==> h in s.hits && h !in allHits
  {
    r := [];
    for k := 0 to |s.hits|
      invariant Distinct(r)
      invariant forall h :: h in r <==> h in s.hits[..k] && h !in allHits
    {
      if s.hits[k] !in allHits {
        assert s.hits[k] !in s.hits[..k];
        r := r + [s.hits[k]];
      }
    }
    assert s.hits[..|s.hits|] == s.hits;
    forall h ensures h in ToSet(r) <==> h in New(s, allHits) {
    }
  }

  function New(s: Session, allHits: seq<int>): (r: set<int>)
    ensures forall h :: h in r <==> h in s.hits && h !in allHits
  {
    set h | h in s.hits && h !in allHits
  }

  function PacketsOver(order: seq<int>, packetNum: map<int, nat>): nat
    requires ToSet(order) <= packetNum.Keys
  {
    if order == [] then 0
    else
      assert order[0] in ToSet(order);
      packetNum[order[0]] + PacketsOver(order[1..], packetNum)
  }

  lemma {:induction false} PacketsWithout(order: seq<int>, packetNum: map<int, nat>, i: nat)
    requires i < |order| && ToSet(order) <= packetNum.Keys
    ensures ToSet(order[..i] + order[i + 1..]) <= packetNum.Keys
    ensures PacketsOver(order, packetNum) == packetNum[order[i]] + PacketsOver(order[..i] + order[i + 1..], packetNum)
  {
    if i == 0 {
      assert order[..0] + order[1..] == order[1..];
    } else {
      PacketsWithout(order[1..], packetNum, i - 1);
      var rest := order[..i] + order[i + 1..];
      assert rest[1..] == order[1..][..i - 1] + order[1..][i..];
    }
  }

  /** The sum of packet numbers does not depend on the order in which the hits are visited. */
  lemma {:induction false} PacketsOrderFree(a: seq<int>, b: seq<int>, packetNum: map<int, nat>)
    requires Distinct(a) && Distinct(b) && ToSet(a) == ToSet(b)
    requires ToSet(a) <= packetNum.Keys
    ensures PacketsOver(a, packetNum) == PacketsOver(b, packetNum)
  {
    if a == [] {
      DistinctCardinality(a);
      DistinctCardinality(b);
    } else {
      assert a[0] in ToSet(b);
      var i :| 0 <= i < |b| && b[i] == a[0];
      var rest := b[..i] + b[i + 1..];
      PacketsWithout(b, packetNum, i);
      assert ToSet(a[1..]) == ToSet(a) - {a[0]};
      assert ToSet(rest) == ToSet(b) - {b[i]};
      PacketsOrderFree(a[1..], rest, packetNum);
    }
  }

  ghost predicate ValidSessions(ss: seq<Session>) {
    forall i :: 0 <= i < |ss| ==> ValidSession(ss[i])
  }

  ghost predicate HasNew(ss: seq<Session>, allHits: seq<int>, i: nat)
    requires i < |ss|
  {
    New(ss[i], allHits) != {}
  }

  /** Packet-number sum of a session over its new hits. */
  ghost function Packets(ss: seq<Session>, allHits: seq<int>, i: nat): nat
    requires i < |ss| && ValidSessions(ss)
  {
    NewInOrder(ss[i], allHits);
    PacketsOver(InOrder(ss[i].hits, allHits), ss[i].packetNum)
  }

  ghost function InOrder(hits: seq<int>, allHits: seq<int>): (r: seq<int>)
    ensures forall h :: h in r <==> h in hits && h !in allHits
  {
    if hits == [] then []
    else (if hits[0] in allHits then [] else [hits[0]]) + InOrder(hits[1..], allHits)
  }

  lemma {:induction false} InOrderDistinct(hits: seq<int>, allHits: seq<int>)
    requires Distinct(hits)
    ensures Distinct(InOrder(hits, allHits))
  {
    if hits == [] {
    } else {
      InOrderDistinct(hits[1..], allHits);
      assert hits[0] !in hits[1..];
    }
  }

  lemma NewInOrder(s: Session, allHits: seq<int>)
    requires ValidSession(s)
    ensures Distinct(InOrder(s.hits, allHits)) && ToSet(InOrder(s.hits, allHits)) == New(s, allHits)
    ensures ToSet(InOrder(s.hits, allHits)) <= s.packetNum.Keys
  {
    InOrderDistinct(s.hits, allHits);
  }

  /** Session j makes session i redundant: strictly more new hits, or the same ones no later in the traffic. */
  ghost predicate Displaces(ss: seq<Session>, allHits: seq<int>, j: nat, i: nat)
    requires i < |ss| && j < |ss| && ValidSessions(ss)
  {
    var ni, nj := New(ss[i], allHits), New(ss[j], allHits);
    i != j && ni != {} && nj != {} && ni <= nj && (ni == nj ==> Packets(ss, allHits, j) <= Packets(ss, allHits, i))
  }

  ghost predicate Survives(ss: seq<Session>, allHits: seq<int>, i: nat)
    requires i < |ss| && ValidSessions(ss)
  {
    HasNew(ss, allHits, i) && forall j :: 0 <= j < |ss| ==> !Displaces(ss, allHits, j, i)
  }

  /** Of two sessions with f's new hits containing those of other, the one that the inner loop puts on rm_list. */
  ghost predicate RemovedByPair(ss: seq<Session>, allHits: seq<int>, f: nat, other: nat, x: nat)
    requires f < |ss| && other < |ss| && ValidSessions(ss)
  {
    && f != other && HasNew(ss, allHits, f) && HasNew(ss, allHits, other)
    && New(ss[other], allHits) <= New(ss[f], allHits)
    && x == if New(ss[other], allHits) == New(ss[f], allHits) && Packets(ss, allHits, other) <= Packets(ss, allHits, f)
            then f else other
  }

  ghost predicate RemovedBefore(ss: seq<Session>, allHits: seq<int>, f: nat, other: nat, x: nat)
    requires f <= |ss| && other <= |ss| && ValidSessions(ss)
  {
    exists a, b :: 0 <= a < |ss| && 0 <= b < |ss| && (a < f || (a == f && b < other))
      && RemovedByPair(ss, allHits, a, b, x)
  }

  lemma RemovedIsDisplaced(ss: seq<Session>, allHits: seq<int>, x: nat)
    requires ValidSessions(ss) && x < |ss|
    ensures RemovedBefore(ss, allHits, |ss|, 0, x) <==> HasNew(ss, allHits, x) && !Survives(ss, allHits, x)
  {
    if RemovedBefore(ss, allHits, |ss|, 0, x) {
      var a, b :| 0 <= a < |ss| && 0 <= b < |ss| && RemovedByPair(ss, allHits, a, b, x);
      assert Displaces(ss, allHits, if x == a then b else a, x);
    }
    if HasNew(ss, allHits, x) && !Survives(ss, allHits, x) {
      var j :| 0 <= j < |ss| && Displaces(ss, allHits, j, x);
      if New(ss[x], allHits) == New(ss[j], allHits) {
        assert RemovedByPair(ss, allHits, x, j, x);
      } else {
        assert RemovedByPair(ss, allHits, j, x, x);
      }
    }
  }

  /** The packet sums that the inner loop adds up, both over the hit list of f. */
  method ComparePackets(ss: seq<Session>, allHits: seq<int>, multi: seq<int>, f: nat, other: nat)
      returns (pcount: nat, pcountOther: nat)
    requires f < |ss| && other < |ss| && ValidSessions(ss)
    requires Distinct(multi) && ToSet(multi) == New(ss[f], allHits) == New(ss[other], allHits)
    ensures pcount == Packets(ss, allHits, f)
    ensures pcountOther == Packets(ss, allHits, other)
  {
    assert New(ss[f], allHits) <= ToSet(ss[f].hits) && New(ss[other], allHits) <= ToSet(ss[other].hits);
    pcount, pcountOther := 0, 0;
    for k := 0 to |multi|
      invariant PacketsOver(multi, ss[f].packetNum) == pcount + PacketsOver(multi[k..], ss[f].packetNum)
      invariant PacketsOver(multi, ss[other].packetNum) == pcountOther + PacketsOver(multi[k..], ss[other].packetNum)
    {
      assert multi[k] in ToSet(multi) && multi[k..][1..] == multi[k + 1..];
      pcount := pcount + ss[f].packetNum[multi[k]];
      pcountOther := pcountOther + ss[other].packetNum[multi[k]];
    }
    NewInOrder(ss[f], allHits);
    NewInOrder(ss[other], allHits);
    PacketsOrderFree(multi, InOrder(ss[f].hits, allHits), ss[f].packetNum);
    PacketsOrderFree(multi, InOrder(ss[other].hits, allHits), ss[other].packetNum);
  }

  /** The body of the inner loop: which of the two sessions goes, if either. */
  method RemoveOne(ss: seq<Session>, allHits: seq<int>, fHits: seq<int>, otherHits: seq<int>, f: nat, other: nat)
      returns (removed: set<nat>)
    requires f < |ss| && other < |ss| && ValidSessions(ss)
    requires Distinct(fHits) && ToSet(fHits) == New(ss[f], allHits)
    requires Distinct(otherHits) && ToSet(otherHits) == New(ss[other], allHits)
    ensures forall x: nat :: x in removed <==> RemovedByPair(ss, allHits, f, other, x)
  {
    removed := {};
    assert fHits != [] ==> fHits[0] in ToSet(fHits);
    assert otherHits != [] ==> otherHits[0] in ToSet(otherHits);
    if f != other && fHits != [] && otherHits != [] {
      var contained := Contained(otherHits, fHits);
      if contained {
        if |fHits| == |otherHits| {
          SameLengthContainedIsEqual(otherHits, fHits);
          var pcount, pcountOther := ComparePackets(ss, allHits, fHits, f, other);
          removed := {if pcount < pcountOther then other else f};
        } else {
          DistinctCardinality(fHits);
          DistinctCardinality(otherHits);
          removed := {other};
        }
      }
    }
  }

  /** Keys left in multi_hits, as indices into the list of sessions. */
  method Prune(ss: seq<Session>, allHits: seq<int>) returns (kept: seq<nat>)
    requires ValidSessions(ss)
    ensures forall i: nat :: i in kept <==> i < |ss| && Survives(ss, allHits, i)
    ensures Distinct(kept)
  {
    var multi: seq<seq<int>> := [];
    for i := 0 to |ss|
      invariant |multi| == i
      invariant forall k :: 0 <= k < i ==> Distinct(multi[k]) && ToSet(multi[k]) == New(ss[k], allHits)
    {
      var hits := NewHits(ss[i], allHits);
      multi := multi + [hits];
    }
    forall k | 0 <= k < |ss| ensures HasNew(ss, allHits, k) <==> multi[k] != [] {
      assert multi[k] != [] ==> multi[k][0] in ToSet(multi[k]);
    }
    var rmList: set<nat> := {};
    for f := 0 to |ss|
      invariant forall x: nat :: x in rmList <==> x < |ss| && RemovedBefore(ss, allHits, f, 0, x)
    {
      for other := 0 to |ss|
        invariant forall x: nat :: x in rmList <==> x < |ss| && RemovedBefore(ss, allHits, f, other, x)
      {
        var removed := RemoveOne(ss, allHits, multi[f], multi[other], f, other);
        OnePairMore(ss, allHits, f, other, rmList, rmList + removed);
        rmList := rmList + removed;
      }
      forall x: nat ensures RemovedBefore(ss, allHits, f, |ss|, x) <==> RemovedBefore(ss, allHits, f + 1, 0, x) {
      }
    }
    kept := [];
    for i := 0 to |ss|
      invariant forall k: nat :: k in kept <==> k < i && Survives(ss, allHits, k)
      invariant Distinct(kept)
    {
      RemovedIsDisplaced(ss, allHits, i);
      if multi[i] != [] && i !in rmList {
        kept := kept + [i];
      }
    }
  }

  lemma OnePairMore(ss: seq<Session>, allHits: seq<int>, f: nat, other: nat, before: set<nat>, after: set<nat>)
    requires f < |ss| && other < |ss| && ValidSessions(ss)
    requires forall x: nat :: x in before <==> x < |ss| && RemovedBefore(ss, allHits, f, other, x)
    requires forall x: nat :: x in after <==> x in before || RemovedByPair(ss, allHits, f, other, x)
    ensures forall x: nat :: x in after <==> x < |ss| && RemovedBefore(ss, allHits, f, other + 1, x)
  {
    forall x: nat | x < |ss| && RemovedBefore(ss, allHits, f, other + 1, x) ensures x in after {
      var a, b :| 0 <= a < |ss| && 0 <= b < |ss| && (a < f || (a == f && b < other + 1))
        && RemovedByPair(ss, allHits, a, b, x);
      if !(a == f && b == other) {
        assert RemovedBefore(ss, allHits, f, other, x);
      }
    }
    forall x: nat | x in after ensures x < |ss| && RemovedBefore(ss, allHits, f, other + 1, x) {
      if x in before {
        var a, b :| 0 <= a < |ss| && 0 <= b < |ss| && (a < f || (a == f && b < other))
          && RemovedByPair(ss, allHits, a, b, x);
      }
    }
  }

  // ---- What the kept family promises ----

  /** Kept sessions are pairwise incomparable, ties or not. */
  lemma KeptAreIncomparable(ss: seq<Session>, allHits: seq<int>, i: nat, j: nat)
    requires ValidSessions(ss) && i < |ss| && j < |ss| && i != j
    requires Survives(ss, allHits, i) && Survives(ss, allHits, j)
    ensures !(New(ss[i], allHits) <= New(ss[j], allHits))
  {
    assert !Displaces(ss, allHits, j, i) && !Displaces(ss, allHits, i, j);
  }

  ghost predicate Covered(ss: seq<Session>, allHits: seq<int>, i: nat)
    requires ValidSessions(ss) && i < |ss|
  {
    exists k :: 0 <= k < |ss| && Survives(ss, allHits, k) && New(ss[i], allHits) <= New(ss[k], allHits)
  }

  ghost predicate Maximal(ss: seq<Session>, allHits: seq<int>, i: nat)
    requires ValidSessions(ss) && i < |ss|
  {
    HasNew(ss, allHits, i) &&
    forall j :: 0 <= j < |ss| && New(ss[i], allHits) <= New(ss[j], allHits) ==>
      New(ss[j], allHits) == New(ss[i], allHits)
  }

  /** k has the same new hits as i, and strictly the least packet sum among all that do. */
  ghost predicate SoleLeast(ss: seq<Session>, allHits: seq<int>, k: nat, i: nat)
    requires ValidSessions(ss) && i < |ss| && k < |ss|
  {
    New(ss[k], allHits) == New(ss[i], allHits) &&
    forall j :: 0 <= j < |ss| && j != k && New(ss[j], allHits) == New(ss[i], allHits) ==>
      Packets(ss, allHits, k) < Packets(ss, allHits, j)
  }

  ghost predicate HasSoleLeast(ss: seq<Session>, allHits: seq<int>, i: nat)
    requires ValidSessions(ss) && i < |ss|
  {
    exists k :: 0 <= k < |ss| && SoleLeast(ss, allHits, k, i)
  }

  ghost function NewSets(ss: seq<Session>, allHits: seq<int>): seq<set<int>> {
    seq(|ss|, i requires 0 <= i < |ss| => New(ss[i], allHits))
  }

  lemma MaximalSession(ss: seq<Session>, allHits: seq<int>, i: nat) returns (m: nat)
    requires ValidSessions(ss) && i < |ss| && HasNew(ss, allHits, i)
    ensures m < |ss| && Maximal(ss, allHits, m) && New(ss[i], allHits) <= New(ss[m], allHits)
  {
    var sets := NewSets(ss, allHits);
    m := MaximalAbove(sets, i);
    forall j | 0 <= j < |ss| && New(ss[m], allHits) <= New(ss[j], allHits)
      ensures New(ss[j], allHits) == New(ss[m], allHits)
    {
      assert sets[m] <= sets[j];
    }
  }

  /** Every session with new hits is contained in a kept one exactly when no maximal set of
      new hits is tied for its least packet sum. */
  lemma CoveredIffNoTie(ss: seq<Session>, allHits: seq<int>)
    requires ValidSessions(ss)
    ensures (forall i :: 0 <= i < |ss| && HasNew(ss, allHits, i) ==> Covered(ss, allHits, i))
       <==> (forall i :: 0 <= i < |ss| && Maximal(ss, allHits, i) ==> HasSoleLeast(ss, allHits, i))
  {
    hide Covered, Maximal, HasSoleLeast, HasNew;
    if forall i :: 0 <= i < |ss| && HasNew(ss, allHits, i) ==> Covered(ss, allHits, i) {
      forall i | 0 <= i < |ss| && Maximal(ss, allHits, i) ensures HasSoleLeast(ss, allHits, i) {
        CoveredHasSoleLeast(ss, allHits, i);
      }
    }
    if forall i :: 0 <= i < |ss| && Maximal(ss, allHits, i) ==> HasSoleLeast(ss, allHits, i) {
      forall i | 0 <= i < |ss| && HasNew(ss, allHits, i) ensures Covered(ss, allHits, i) {
        var m := MaximalSession(ss, allHits, i);
        SoleLeastCovers(ss, allHits, i, m);
      }
    }
  }

  lemma CoveredHasSoleLeast(ss: seq<Session>, allHits: seq<int>, i: nat)
    requires ValidSessions(ss) && i < |ss| && Maximal(ss, allHits, i)
    ensures HasNew(ss, allHits, i) && (Covered(ss, allHits, i) ==> HasSoleLeast(ss, allHits, i))
  {
    if Covered(ss, allHits, i) {
      var k :| 0 <= k < |ss| && Survives(ss, allHits, k) && New(ss[i], allHits) <= New(ss[k], allHits);
      SoleLeastSurvives(ss, allHits, k, i);
    }
  }

  lemma SoleLeastCovers(ss: seq<Session>, allHits: seq<int>, i: nat, m: nat)
    requires ValidSessions(ss) && i < |ss| && m < |ss| && New(ss[i], allHits) <= New(ss[m], allHits)
    requires Maximal(ss, allHits, m) && HasSoleLeast(ss, allHits, m)
    ensures Covered(ss, allHits, i)
  {
    var k :| 0 <= k < |ss| && SoleLeast(ss, allHits, k, m);
    SoleLeastSurvives(ss, allHits, k, m);
  }

  /** In a maximal set of new hits the one survivor, if any, is the sole holder of the least packet sum. */
  lemma SoleLeastSurvives(ss: seq<Session>, allHits: seq<int>, k: nat, m: nat)
    requires ValidSessions(ss) && m < |ss| && k < |ss|
    requires Maximal(ss, allHits, m) && New(ss[k], allHits) == New(ss[m], allHits)
    ensures Survives(ss, allHits, k) <==> SoleLeast(ss, allHits, k, m)
  {
    if Survives(ss, allHits, k) {
      forall j | 0 <= j < |ss| && j != k && New(ss[j], allHits) == New(ss[m], allHits)
        ensures Packets(ss, allHits, k) < Packets(ss, allHits, j)
      {
        assert !Displaces(ss, allHits, j, k);
      }
    }
    if SoleLeast(ss, allHits, k, m) {
      forall j | 0 <= j < |ss| ensures !Displaces(ss, allHits, j, k) {
      }
    }
  }

  /** Two sessions tied on the packet sum remove each other, and their new hits go with them. */
  lemma TiedSessionsVanish() returns (ss: seq<Session>)
    ensures |ss| == 2 && ValidSessions(ss) && New(ss[0], []) == New(ss[1], []) == {5}
    ensures !Survives(ss, [], 0) && !Survives(ss, [], 1)
    ensures !Covered(ss, [], 0)
  {
    ss := [Session([5], map[5 := 3]), Session([5], map[5 := 3])];
    assert ToSet([5]) == {5};
    assert New(ss[0], []) == {5} by { assert 5 in ss[0].hits; }
    assert New(ss[1], []) == {5} by { assert 5 in ss[1].hits; }
    assert Packets(ss, [], 0) == Packets(ss, [], 1);
    assert Displaces(ss, [], 1, 0) && Displaces(ss, [], 0, 1);
  }
}
