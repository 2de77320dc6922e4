/** The FDMgr class of fdMgr.py: it hands out file descriptors 255 down to 231 per thread, and refines a
    partial map from (thread, descriptor) to the path that was opened. */
module FdMgr {
  import opened Collections
  import Text

  type Tid = string
  type Path = string
  datatype Slot = Slot(tid: Tid, fd: nat)

  const FD_MAX: nat := 255
  const FD_MIN: nat := 230

  predicate IsFd(n: nat) {
    FD_MIN < n <= FD_MAX
  }

  /** The key under which the path is kept. */
  function KeyOf(s: Slot): string {
    s.tid + ":" + Text.Decimal(s.fd)
  }

  /** How many digits a key ends with. */
  function DigitTail(s: string): nat {
    if s == "" || !Text.IsDigit(s[|s| - 1]) then 0 else 1 + DigitTail(s[..|s| - 1])
  }

  lemma {:induction false} DigitTailIs(before: string, digits: string)
    requires forall i :: 0 <= i < |digits| ==> Text.IsDigit(digits[i])
    ensures DigitTail(before + ":" + digits) == |digits|
  {
    if digits == "" {
      assert before + ":" + digits == before + ":";
    } else {
      var most := digits[..|digits| - 1];
      DigitTailIs(before, most);
      assert (before + ":" + digits)[..|before| + |digits|] == before + ":" + most;
    }
  }

  /** Whatever the thread is called, two slots never share a key. */
  lemma KeyInjective(a: Slot, b: Slot)
    requires KeyOf(a) == KeyOf(b)
    ensures a == b
  {
    var x, y, k := Text.Decimal(a.fd), Text.Decimal(b.fd), KeyOf(a);
    DigitTailIs(a.tid, x);
    DigitTailIs(b.tid, y);
    assert x == k[|k| - |x|..] && y == k[|k| - |y|..];
    Text.DecimalInjective(a.fd, b.fd);
    assert a.tid == k[..|k| - |x| - 1] && b.tid == k[..|k| - |y| - 1];
  }

  // ---- The partial map that the two dictionaries stand for ----

  type FdMap = map<Tid, seq<nat>>
  type DmodMap = map<string, Path>
  type Opened = map<Slot, Path>

  predicate IsOpen(fds: FdMap, s: Slot) {
    s.tid in fds && s.fd in fds[s.tid]
  }

  function OpenSlots(fds: FdMap): set<Slot> {
    set t, fd | t in fds && fd in fds[t] :: Slot(t, fd)
  }

  function OpenedOf(fds: FdMap, dmods: DmodMap): Opened {
    map s | s in OpenSlots(fds) && KeyOf(s) in dmods :: dmods[KeyOf(s)]
  }

  /** Descriptors of a thread are distinct and in range, and each has a key; other keys may be stale. */
  ghost predicate Sound(fds: FdMap, dmods: DmodMap) {
    && (forall t :: t in fds ==> Distinct(fds[t]))
    && (forall t, fd :: t in fds && fd in fds[t] ==> IsFd(fd))
    && (forall s :: IsOpen(fds, s) ==> KeyOf(s) in dmods)
  }

  lemma OpenedExact(fds: FdMap, dmods: DmodMap, s: Slot)
    requires Sound(fds, dmods)
    ensures s in OpenedOf(fds, dmods) <==> IsOpen(fds, s)
    ensures IsOpen(fds, s) ==> OpenedOf(fds, dmods)[s] == dmods[KeyOf(s)]
  {
    hide KeyOf;
    if IsOpen(fds, s) {
      assert s == Slot(s.tid, s.fd);
    }
  }

  lemma OpenedIs(fds: FdMap, dmods: DmodMap, m: Opened)
    requires Sound(fds, dmods)
    requires forall s :: s in m <==> IsOpen(fds, s)
    requires forall s :: IsOpen(fds, s) ==> m[s] == dmods[KeyOf(s)]
    ensures OpenedOf(fds, dmods) == m
  {
    hide KeyOf, Sound, IsOpen, OpenedOf;
    forall s ensures (s in OpenedOf(fds, dmods) <==> s in m) && (s in m ==> OpenedOf(fds, dmods)[s] == m[s]) {
      OpenedExact(fds, dmods, s);
    }
  }

  // ---- What the operations do to the dictionaries ----

  function Took(fds: FdMap, s: Slot): FdMap {
    fds[s.tid := (if s.tid in fds then fds[s.tid] else []) + [s.fd]]
  }

  /** list.remove: the first occurrence goes. */
  function Removed(list: seq<nat>, fd: nat): seq<nat> {
    if list == [] then [] else if list[0] == fd then list[1..] else [list[0]] + Removed(list[1..], fd)
  }

  lemma {:induction false} RemovedExact(list: seq<nat>, fd: nat)
    requires Distinct(list)
    ensures Distinct(Removed(list, fd))
    ensures forall x :: x in Removed(list, fd) <==> x in list && x != fd
  {
    if list != [] {
      assert list == [list[0]] + list[1..];
      if list[0] != fd {
        RemovedExact(list[1..], fd);
        var rest := Removed(list[1..], fd);
        assert list[0] !in rest;
        assert forall i :: 1 <= i < |[list[0]] + rest| ==> ([list[0]] + rest)[i] == rest[i - 1];
      }
    }
  }

  lemma TakenIsOpened(fds: FdMap, dmods: DmodMap, s: Slot, path: Path)
    requires Sound(fds, dmods) && !IsOpen(fds, s) && IsFd(s.fd)
    ensures Sound(Took(fds, s), dmods[KeyOf(s) := path])
    ensures OpenedOf(Took(fds, s), dmods[KeyOf(s) := path]) == OpenedOf(fds, dmods)[s := path]
  {
    hide KeyOf, OpenedOf;
    var f, d := Took(fds, s), dmods[KeyOf(s) := path];
    forall q ensures IsOpen(f, q) <==> q == s || IsOpen(fds, q) {}
    assert Sound(f, d);
    forall q | IsOpen(fds, q) ensures d[KeyOf(q)] == dmods[KeyOf(q)] {
      if KeyOf(q) == KeyOf(s) {
        KeyInjective(q, s);
      }
    }
    forall q ensures q in OpenedOf(fds, dmods)[s := path] <==> IsOpen(f, q) {
      OpenedExact(fds, dmods, q);
    }
    forall q | IsOpen(f, q) ensures OpenedOf(fds, dmods)[s := path][q] == d[KeyOf(q)] {
      OpenedExact(fds, dmods, q);
    }
    OpenedIs(f, d, OpenedOf(fds, dmods)[s := path]);
  }

  /** A close with the wrong path leaves the key behind; the slot is closed all the same. */
  lemma ClosedIsNotOpened(fds: FdMap, dmods: DmodMap, s: Slot, d: DmodMap)
    requires Sound(fds, dmods) && IsOpen(fds, s)
    requires d == dmods || d == dmods - {KeyOf(s)}
    ensures var f := fds[s.tid := Removed(fds[s.tid], s.fd)];
      Sound(f, d) && OpenedOf(f, d) == OpenedOf(fds, dmods) - {s}
  {
    hide KeyOf, OpenedOf;
    var f := fds[s.tid := Removed(fds[s.tid], s.fd)];
    RemovedExact(fds[s.tid], s.fd);
    forall q ensures IsOpen(f, q) <==> q != s && IsOpen(fds, q) {}
    forall q | IsOpen(f, q) ensures KeyOf(q) in d && d[KeyOf(q)] == dmods[KeyOf(q)] {
      if KeyOf(q) == KeyOf(s) {
        KeyInjective(q, s);
      }
    }
    assert Sound(f, d);
    forall q ensures q in OpenedOf(fds, dmods) - {s} <==> IsOpen(f, q) {
      OpenedExact(fds, dmods, q);
    }
    forall q | IsOpen(f, q) ensures (OpenedOf(fds, dmods) - {s})[q] == d[KeyOf(q)] {
      OpenedExact(fds, dmods, q);
    }
    OpenedIs(f, d, OpenedOf(fds, dmods) - {s});
  }

  /** A thread has run out exactly when it has 25 descriptors open. */
  lemma FullAtTwentyFive(list: seq<nat>)
    requires Distinct(list) && forall fd :: fd in list ==> IsFd(fd)
    ensures |list| <= 25
    ensures |list| == 25 <==> forall fd :: IsFd(fd) ==> fd in list
  {
    RangeSize(FD_MAX);
    DistinctCardinality(list);
    SubsetCardinality(ToSet(list), Range(FD_MAX));
    if forall fd :: IsFd(fd) ==> fd in list {
      assert ToSet(list) == Range(FD_MAX);
    }
    if |list| == 25 {
      forall fd | IsFd(fd) ensures fd in list {
        assert fd in Range(FD_MAX);
        assert fd in ToSet(list);
      }
    }
  }

  function Range(top: nat): set<nat> {
    set fd: nat | fd <= top && IsFd(fd)
  }

  lemma {:induction false} RangeSize(top: nat)
    requires FD_MIN <= top <= FD_MAX
    ensures |Range(top)| == top - FD_MIN
  {
    if top == FD_MIN {
      assert Range(top) == {};
    } else {
      RangeSize(top - 1);
      assert IsFd(top);
      assert Range(top) == Range(top - 1) + {top};
    }
  }

  class FdMgr {
    var fdMap: FdMap
    var dmodMap: DmodMap

    ghost predicate Valid()
      reads this
    {
      Sound(fdMap, dmodMap)
    }

    ghost function Open(): Opened
      reads this
    {
      OpenedOf(fdMap, dmodMap)
    }

    constructor ()
      ensures Valid() && Open() == map[]
    {
      fdMap, dmodMap := map[], map[];
    }

    /** The highest descriptor that the thread does not have open; none when it has all 25. */
    method GetFD(tid: Tid, path: Path) returns (fd: Option<nat>)
      requires Valid()
      modifies this
      ensures Valid()
      ensures fd.None? <==> forall n :: IsFd(n) ==> Slot(tid, n) in old(Open())
      ensures fd.None? <==> tid in old(fdMap) && |old(fdMap)[tid]| == 25
      ensures fd.None? ==> Open() == old(Open()) && forall n: nat :: 231 <= n <= 255 ==> Slot(tid, n) in old(Open())
      ensures fd.Some? ==> 231 <= fd.value <= 255
      ensures fd.Some? ==> forall n: nat :: fd.value < n <= 255 ==> Slot(tid, n) in old(Open())
      ensures fd.Some? ==> IsFd(fd.value) && Slot(tid, fd.value) !in old(Open())
      ensures fd.Some? ==> forall n: nat :: IsFd(n) && n > fd.value ==> Slot(tid, n) in old(Open())
      ensures fd.Some? ==> Open() == old(Open())[Slot(tid, fd.value) := path]
    {
      hide KeyOf, OpenedOf;
      forall s ensures s in Open() <==> IsOpen(fdMap, s) {
        OpenedExact(fdMap, dmodMap, s);
      }
      ghost var list := if tid in fdMap then fdMap[tid] else [];
      FullAtTwentyFive(list);
      assert forall n :: Slot(tid, n) in Open() <==> n in list;
      fd := None;
      var fdTry: nat := FD_MAX;
      while fdTry > FD_MIN && fd.None?
        invariant FD_MIN <= fdTry <= FD_MAX
        invariant forall n: nat :: IsFd(n) && n > fdTry ==> n in list
        invariant fd.Some? ==> fd.value == fdTry && fdTry > FD_MIN && fdTry !in list
        decreases fdTry, fd.None?
      {
        if tid !in fdMap || fdTry !in fdMap[tid] {
          fd := Some(fdTry);
        } else {
          fdTry := fdTry - 1;
        }
      }
      if fd.Some? {
        TakenIsOpened(fdMap, dmodMap, Slot(tid, fd.value), path);
        fdMap := Took(fdMap, Slot(tid, fd.value));
        dmodMap := dmodMap[KeyOf(Slot(tid, fd.value)) := path];
      }
    }

    /** Closing an open descriptor frees it whatever path is given; the look-up of its key never fails. */
    method Close(tid: Tid, fd: nat, path: Path)
      requires Valid()
      modifies this
      ensures Valid() && Open() == old(Open()) - {Slot(tid, fd)}
    {
      hide KeyOf, OpenedOf;
      var s := Slot(tid, fd);
      OpenedExact(fdMap, dmodMap, s);
      if tid in fdMap && fd in fdMap[tid] {
        ghost var d := if dmodMap[KeyOf(s)] == path then dmodMap - {KeyOf(s)} else dmodMap;
        ClosedIsNotOpened(fdMap, dmodMap, s, d);
        fdMap := fdMap[tid := Removed(fdMap[tid], fd)];
        if dmodMap[KeyOf(s)] == path {
          dmodMap := dmodMap - {KeyOf(s)};
        }
      }
    }

    method HasFDOpen(tid: Tid, fd: nat, path: Path) returns (open: bool)
      requires Valid()
      ensures open <==> Slot(tid, fd) in Open() && Open()[Slot(tid, fd)] == path
    {
      hide KeyOf, OpenedOf;
      var s := Slot(tid, fd);
      OpenedExact(fdMap, dmodMap, s);
      open := false;
      if tid in fdMap && fd in fdMap[tid] {
        if dmodMap[KeyOf(s)] == path {
          open := true;
        }
      }
    }
  }
}
