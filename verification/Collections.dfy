/** Small facts about sequences and sets that several components share. */
module Collections {

  datatype Option<+T> = None | Some(value: T)

  ghost predicate Distinct<T>(s: seq<T>) {
    forall i, j :: 0 <= i < j < |s| ==> s[i] != s[j]
  }

  function ToSet<T(==)>(s: seq<T>): set<T> {
    set x | x in s
  }

  function Sum(s: seq<nat>): nat {
    if s == [] then 0 else s[0] + Sum(s[1..])
  }

  lemma {:induction false} SumUpdate(s: seq<nat>, i: nat, v: nat)
    requires i < |s|
    ensures Sum(s[i := v]) == Sum(s) - s[i] + v
  {
    if i == 0 {
      assert s[0 := v][1..] == s[1..];
    } else {
      assert s[i := v][1..] == s[1..][i - 1 := v];
      SumUpdate(s[1..], i - 1, v);
    }
  }

  lemma {:induction false} DistinctCardinality<T>(s: seq<T>)
    requires Distinct(s)
    ensures |ToSet(s)| == |s|
  {
    if s == [] {
    } else {
      DistinctCardinality(s[1..]);
      assert ToSet(s) == {s[0]} + ToSet(s[1..]);
      assert s[0] !in ToSet(s[1..]);
    }
  }

  /** A proper subset of a finite set is smaller. */
  lemma {:induction false} SubsetCardinality<T>(a: set<T>, b: set<T>)
    requires a <= b
    ensures |a| <= |b|
    ensures a != b ==> |a| < |b|
  {
    assert b == a + (b - a);
    assert |b| == |a| + |b - a|;
    if a != b {
      var x := ExtraElement(a, b);
    }
  }

  lemma ExtraElement<T>(a: set<T>, b: set<T>) returns (x: T)
    requires a <= b && a != b
    ensures x in b && x !in a
  {
    assert !(b <= a);
    x :| x in b && x !in a;
  }

  /** The pigeonhole step behind every "same length and contained" test of two duplicate-free lists. */
  lemma SameLengthContainedIsEqual<T>(a: seq<T>, b: seq<T>)
    requires Distinct(a) && Distinct(b)
    requires |a| == |b| && ToSet(a) <= ToSet(b)
    ensures ToSet(a) == ToSet(b)
  {
    DistinctCardinality(a);
    DistinctCardinality(b);
    SubsetCardinality(ToSet(a), ToSet(b));
  }

  function Concat<T>(parts: seq<seq<T>>): seq<T> {
    if parts == [] then [] else Concat(parts[..|parts| - 1]) + parts[|parts| - 1]
  }

  function Union(sets: seq<set<int>>): set<int> {
    if sets == [] then {} else sets[0] + Union(sets[1..])
  }

  lemma {:induction false} InUnion(sets: seq<set<int>>, x: nat)
    requires x < |sets|
    ensures sets[x] <= Union(sets)
  {
    if x > 0 {
      InUnion(sets[1..], x - 1);
    }
  }

  /** From any set of a finite family a strictly growing chain ends at one that no other exceeds. */
  lemma {:induction false} MaximalAbove(sets: seq<set<int>>, x: nat) returns (m: nat)
    requires x < |sets|
    ensures m < |sets| && sets[x] <= sets[m]
    ensures forall y :: 0 <= y < |sets| && sets[m] <= sets[y] ==> sets[y] == sets[m]
    decreases |Union(sets) - sets[x]|
  {
    if y :| 0 <= y < |sets| && sets[x] <= sets[y] && sets[x] != sets[y] {
      var all := Union(sets);
      InUnion(sets, y);
      var h := ExtraElement(sets[x], sets[y]);
      assert h in all - sets[x] && h !in all - sets[y];
      SubsetCardinality(all - sets[y], all - sets[x]);
      m := MaximalAbove(sets, y);
    } else {
      m := x;
    }
  }

  /** The loop by which the scripts look for an element of a that is missing from b. */
  method Contained(a: seq<int>, b: seq<int>) returns (contained: bool)
    ensures contained <==> forall x :: x in a ==> x in b
    ensures contained <==> ToSet(a) <= ToSet(b)
  {
    contained := true;
    for k := 0 to |a|
      invariant contained && forall i :: 0 <= i < k ==> a[i] in b
    {
      var x := a[k];
      if x !in b {
        assert x in a && x in ToSet(a) && x !in ToSet(b);
        return false;
      }
    }
  }
}
