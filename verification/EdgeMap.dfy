/** The AFL edge map kept by bbHap of coverage.py, and the plain edge count it stands for. */
module EdgeMap {
  import opened Addresses

  const MAP_SIZE: nat := 65536

  /** Bitwise exclusive or. */
  function Xor(a: nat, b: nat): nat {
    if a == 0 && b == 0 then 0 else (a + b) % 2 + 2 * Xor(a / 2, b / 2)
  }

  function Pow2(k: nat): nat {
    if k == 0 then 1 else 2 * Pow2(k - 1)
  }

  lemma {:induction false} XorBound(a: nat, b: nat, k: nat)
    requires a < Pow2(k) && b < Pow2(k)
    ensures Xor(a, b) < Pow2(k)
  {
    if a == 0 && b == 0 {
    } else {
      XorBound(a / 2, b / 2, k - 1);
    }
  }

  /** An edge index always lies in the map. */
  lemma IndexInMap(cur: nat, prev: nat)
    requires cur < MAP_SIZE && prev < MAP_SIZE
    ensures Xor(cur, prev) < MAP_SIZE
  {
    assert Pow2(8) == 256;
    assert Pow2(16) == MAP_SIZE;
    XorBound(cur, prev, 16);
  }

  /** Bit i of a number, the lowest being bit 0. */
  predicate Bit(n: nat, i: nat) {
    if i == 0 then n % 2 == 1 else Bit(n / 2, i - 1)
  }

  /** It is the i-th binary digit. */
  lemma {:induction false} BitIsDigit(n: nat, i: nat)
    ensures Pow2(i) > 0 && (Bit(n, i) <==> n / Pow2(i) % 2 == 1)
  {
    if i > 0 {
      BitIsDigit(n / 2, i - 1);
      HalfThenRest(n, Pow2(i - 1));
    }
  }

  lemma HalfThenRest(n: nat, d: nat)
    requires d > 0
    ensures n / 2 / d == n / (2 * d)
  {
    var q, r := n / 2 / d, n / 2 % d;
    assert n / 2 == d * q + r;
    assert n == 2 * d * q + (2 * r + n % 2);
    QuotientIs(n, 2 * d, q, 2 * r + n % 2);
  }

  lemma QuotientIs(n: nat, d: nat, q: nat, r: nat)
    requires d > 0 && n == d * q + r && r < d
    ensures n / d == q
  {
    var k, t := n / d, n % d;
    assert n == d * k + t;
    if k < q {
      assert d * (q - k) == d * q - d * k;
      AtLeast(d, q - k);
    } else if k > q {
      assert d * (k - q) == d * k - d * q;
      AtLeast(d, k - q);
    }
  }

  lemma {:induction false} AtLeast(d: nat, k: nat)
    requires k > 0
    ensures d * k >= d
  {
    if k > 1 {
      AtLeast(d, k - 1);
      assert d * k == d * (k - 1) + d;
    }
  }

  lemma Parity(a: nat, b: nat, x: nat)
    requires x % 2 == (a + b) % 2
    ensures x % 2 == 1 <==> (a % 2 == 1) != (b % 2 == 1)
  {
  }

  /** What the exclusive or is: its bits are those in which the two numbers differ. */
  lemma {:induction false} XorBits(a: nat, b: nat, i: nat)
    ensures Bit(Xor(a, b), i) <==> Bit(a, i) != Bit(b, i)
    decreases i
  {
    hide Xor;
    XorHalf(a, b);
    if i == 0 {
      Parity(a, b, Xor(a, b));
    } else {
      XorBits(a / 2, b / 2, i - 1);
    }
  }

  lemma XorHalf(a: nat, b: nat)
    ensures Xor(a, b) / 2 == Xor(a / 2, b / 2) && Xor(a, b) % 2 == (a + b) % 2
  {
  }

  /** A number is told by its bits. */
  lemma {:induction false} SameBits(a: nat, b: nat)
    requires forall i: nat :: Bit(a, i) <==> Bit(b, i)
    ensures a == b
    decreases a + b
  {
    assert Bit(a, 0) <==> Bit(b, 0);
    if a + b > 0 {
      forall i: nat ensures Bit(a / 2, i) <==> Bit(b / 2, i) {
        assert Bit(a, i + 1) <==> Bit(b, i + 1);
      }
      SameBits(a / 2, b / 2);
    }
  }

  /** Reference: hits are accepted until their block saturates, and every accepted edge is counted without a limit.
      Nothing is ever disabled. */
  datatype Reference = Reference(prev: nat, saturated: set<Addr>, log: seq<nat>)

  const FRESH := Reference(0, {}, [])

  predicate ValidMap(aflMap: map<Addr, nat>) {
    forall a :: a in aflMap ==> aflMap[a] < MAP_SIZE
  }

  function Hit(aflMap: map<Addr, nat>, r: Reference, addr: Addr): Reference {
    if addr in r.saturated || addr !in aflMap then r
    else
      var index := Xor(aflMap[addr], r.prev);
      var saturated := if multiset(r.log)[index] >= 255 then r.saturated + {addr} else r.saturated;
      Reference(aflMap[addr] / 2, saturated, r.log + [index])
  }

  /** A whole run of the program under test, given as the blocks it executes. */
  function Replay(aflMap: map<Addr, nat>, blocks: seq<Addr>): Reference {
    if blocks == [] then FRESH else Hit(aflMap, Replay(aflMap, blocks[..|blocks| - 1]), blocks[|blocks| - 1])
  }

  // ---- What is counted ----

  /** The edge from the block at one location to the block at another: the bits of the second, each flipped if
      the next higher bit of the first is set. So the order counts, and a block that repeats is no edge 0. */
  ghost predicate IsEdge(edge: nat, from: nat, to: nat) {
    forall i: nat :: Bit(edge, i) <==> Bit(to, i) != Bit(from, i + 1)
  }

  /** The previous location is kept without its lowest bit. */
  ghost predicate KeepsPlace(prev: nat, loc: nat) {
    forall i: nat :: Bit(prev, i) <==> Bit(loc, i + 1)
  }

  /** One more hit, by its bits: the edge counted, and the place kept for the next. */
  ghost predicate Counts(edge: nat, before: nat, loc: nat, after: nat) {
    && (forall i: nat :: Bit(edge, i) <==> Bit(loc, i) != Bit(before, i))
    && KeepsPlace(after, loc)
  }

  /** One more hit in the reference. */
  ghost predicate OneEdge(r: Reference, loc: nat, s: Reference) {
    |s.log| == |r.log| + 1 && s.log[..|r.log|] == r.log && Counts(s.log[|r.log|], r.prev, loc, s.prev)
  }

  lemma HitIsEdge(aflMap: map<Addr, nat>, r: Reference, addr: Addr)
    requires addr in aflMap && addr !in r.saturated
    ensures OneEdge(r, aflMap[addr], Hit(aflMap, r, addr))
  {
    hide Xor;
    EdgeIsXor(aflMap[addr], r.prev);
  }

  lemma EdgeIsXor(loc: nat, prev: nat)
    ensures Counts(Xor(loc, prev), prev, loc, loc / 2)
  {
    hide Xor;
    forall i: nat ensures Bit(Xor(loc, prev), i) <==> Bit(loc, i) != Bit(prev, i) {
      XorBits(loc, prev, i);
    }
  }

  /** There is one such edge. */
  lemma EdgeIsOne(e: nat, f: nat, from: nat, to: nat)
    requires IsEdge(e, from, to) && IsEdge(f, from, to)
    ensures e == f
  {
    SameBits(e, f);
  }

  /** The hits that are accepted: of blocks that have a location and have not saturated. */
  function Accepted(aflMap: map<Addr, nat>, blocks: seq<Addr>): seq<Addr> {
    if blocks == [] then []
    else
      var before, addr := blocks[..|blocks| - 1], blocks[|blocks| - 1];
      Accepted(aflMap, before) +
        if addr in aflMap && addr !in Replay(aflMap, before).saturated then [addr] else []
  }

  lemma AcceptedNext(aflMap: map<Addr, nat>, blocks: seq<Addr>, addr: Addr)
    ensures Accepted(aflMap, blocks + [addr]) == Accepted(aflMap, blocks) +
      if addr in aflMap && addr !in Replay(aflMap, blocks).saturated then [addr] else []
  {
    assert (blocks + [addr])[..|blocks|] == blocks;
  }

  /** The location that the k-th hit is reached from; the first is reached from nowhere. */
  function From(aflMap: map<Addr, nat>, accepted: seq<Addr>, k: nat): nat
    requires k <= |accepted| && forall i :: 0 <= i < |accepted| ==> accepted[i] in aflMap
  {
    if k == 0 then 0 else aflMap[accepted[k - 1]]
  }

  /** The log of a list of accepted hits: each adds the edge from the location before to its own. */
  ghost predicate EdgesOf(log: seq<nat>, aflMap: map<Addr, nat>, accepted: seq<Addr>) {
    && |log| == |accepted| && (forall k :: 0 <= k < |accepted| ==> accepted[k] in aflMap)
    && forall k :: 0 <= k < |log| ==> IsEdge(log[k], From(aflMap, accepted, k), aflMap[accepted[k]])
  }

  /** The k-th accepted hit is of this block, and its edge had been counted 255 times. */
  ghost predicate FullAt(log: seq<nat>, accepted: seq<Addr>, addr: Addr, k: nat) {
    k < |accepted| && k < |log| && accepted[k] == addr && multiset(log[..k])[log[k]] >= 255
  }

  /** Such a hit saturates the block. */
  ghost predicate IsFull(log: seq<nat>, accepted: seq<Addr>, addr: Addr) {
    exists k: nat :: FullAt(log, accepted, addr, k)
  }

  lemma EdgeFromPlace(edge: nat, prev: nat, from: nat, to: nat, after: nat)
    requires Counts(edge, prev, to, after) && KeepsPlace(prev, from)
    ensures IsEdge(edge, from, to) && KeepsPlace(after, to)
  {
    hide Bit;
  }

  lemma EdgesNext(log: seq<nat>, aflMap: map<Addr, nat>, accepted: seq<Addr>, prev: nat, addr: Addr, edge: nat,
      after: nat)
    requires EdgesOf(log, aflMap, accepted) && addr in aflMap && Counts(edge, prev, aflMap[addr], after)
    requires KeepsPlace(prev, From(aflMap, accepted, |accepted|))
    ensures EdgesOf(log + [edge], aflMap, accepted + [addr])
    ensures KeepsPlace(after, From(aflMap, accepted + [addr], |accepted| + 1))
  {
    hide Bit, IsEdge, KeepsPlace, Counts;
    var more := accepted + [addr];
    EdgeFromPlace(edge, prev, From(aflMap, accepted, |accepted|), aflMap[addr], after);
    forall k | 0 <= k < |log + [edge]| ensures IsEdge((log + [edge])[k], From(aflMap, more, k), aflMap[more[k]]) {
      if k < |log| {
        assert IsEdge(log[k], From(aflMap, accepted, k), aflMap[accepted[k]]);
      }
    }
  }

  lemma NowhereKept()
    ensures KeepsPlace(0, 0)
  {
    forall i: nat ensures Bit(0, i) <==> Bit(0, i + 1) {
      NoBits(i);
      NoBits(i + 1);
    }
  }

  lemma {:induction false} NoBits(i: nat)
    ensures !Bit(0, i)
  {
    if i > 0 {
      NoBits(i - 1);
    }
  }

  lemma FullNext(log: seq<nat>, accepted: seq<Addr>, addr: Addr, edge: nat, a: Addr)
    requires |log| == |accepted|
    ensures IsFull(log + [edge], accepted + [addr], a) <==>
      IsFull(log, accepted, a) || (a == addr && multiset(log)[edge] >= 255)
  {
    var longer, more := log + [edge], accepted + [addr];
    assert longer[..|log|] == log;
    forall k: nat | k < |log| ensures FullAt(longer, more, a, k) <==> FullAt(log, accepted, a, k) {
      assert longer[..k] == log[..k];
    }
    if IsFull(log, accepted, a) {
      var k: nat :| FullAt(log, accepted, a, k);
      assert FullAt(longer, more, a, k);
    }
    if a == addr && multiset(log)[edge] >= 255 {
      assert FullAt(longer, more, a, |log|);
    }
  }

  /** Log, previous location and ignored blocks, told by the hits accepted. */
  ghost predicate Logged(r: Reference, aflMap: map<Addr, nat>, accepted: seq<Addr>) {
    && EdgesOf(r.log, aflMap, accepted) && KeepsPlace(r.prev, From(aflMap, accepted, |accepted|))
    && forall addr :: addr in r.saturated <==> IsFull(r.log, accepted, addr)
  }

  lemma HitIsLogged(aflMap: map<Addr, nat>, r: Reference, accepted: seq<Addr>, addr: Addr)
    requires Logged(r, aflMap, accepted) && addr in aflMap && addr !in r.saturated
    ensures Logged(Hit(aflMap, r, addr), aflMap, accepted + [addr])
  {
    hide Xor, IsEdge, Counts, KeepsPlace, IsFull;
    var edge := Xor(aflMap[addr], r.prev);
    EdgeIsXor(aflMap[addr], r.prev);
    EdgesNext(r.log, aflMap, accepted, r.prev, addr, edge, aflMap[addr] / 2);
    forall a {
      FullNext(r.log, accepted, addr, edge, a);
    }
  }

  /** Whatever blocks a run executes, the edges counted are those between the locations of the accepted hits,
      in order, and the blocks ignored are those of which a hit found its edge full. */
  lemma {:induction false} ReplayIsLogged(aflMap: map<Addr, nat>, blocks: seq<Addr>)
    ensures Logged(Replay(aflMap, blocks), aflMap, Accepted(aflMap, blocks))
  {
    hide Xor, IsEdge, KeepsPlace, Logged, Hit;
    if blocks == [] {
      FreshIsLogged(aflMap);
    } else {
      var most, addr := blocks[..|blocks| - 1], blocks[|blocks| - 1];
      var before := Accepted(aflMap, most);
      ReplayIsLogged(aflMap, most);
      if addr in aflMap && addr !in Replay(aflMap, most).saturated {
        HitIsLogged(aflMap, Replay(aflMap, most), before, addr);
      } else {
        assert before + [] == before;
        NoHit(aflMap, Replay(aflMap, most), addr);
      }
    }
  }

  lemma NoHit(aflMap: map<Addr, nat>, r: Reference, addr: Addr)
    requires addr !in aflMap || addr in r.saturated
    ensures Hit(aflMap, r, addr) == r
  {
  }

  lemma FreshIsLogged(aflMap: map<Addr, nat>)
    ensures Logged(FRESH, aflMap, [])
  {
    NowhereKept();
  }

  function Min(a: nat, b: nat): nat {
    if a < b then a else b
  }

  /** The map AFL is given for a list of edges. */
  function Bitmap(log: seq<nat>): (b: seq<nat>)
    ensures |b| == MAP_SIZE
  {
    seq(MAP_SIZE, i requires 0 <= i => Min(255, multiset(log)[i]))
  }

  function NonZero(s: seq<nat>): nat {
    if s == [] then 0 else (if s[0] == 0 then 0 else 1) + NonZero(s[1..])
  }

  lemma {:induction false} NonZeroUpdate(s: seq<nat>, i: nat, v: nat)
    requires i < |s|
    ensures NonZero(s[i := v]) == NonZero(s) - (if s[i] == 0 then 0 else 1) + (if v == 0 then 0 else 1)
  {
    if i == 0 {
      assert s[0 := v][1..] == s[1..];
    } else {
      assert s[i := v][1..] == s[1..][i - 1 := v];
      NonZeroUpdate(s[1..], i - 1, v);
    }
  }

  lemma {:induction false} NonZeroOfZeros(s: seq<nat>)
    requires forall i :: 0 <= i < |s| ==> s[i] == 0
    ensures NonZero(s) == 0
  {
    if s != [] {
      NonZeroOfZeros(s[1..]);
    }
  }

  /** One more edge changes one cell of the map, and none when that cell is full. */
  lemma BitmapAppend(log: seq<nat>, index: nat)
    requires index < MAP_SIZE
    ensures Bitmap(log + [index]) == Bitmap(log)[index := Min(255, multiset(log)[index] + 1)]
  {
    var before, after := multiset(log), multiset(log + [index]);
    assert after == before + multiset{index};
    forall i | 0 <= i < MAP_SIZE
      ensures Bitmap(log + [index])[i] == Bitmap(log)[index := Min(255, before[index] + 1)][i]
    {
    }
  }

  lemma {:induction false} ReplayInMap(aflMap: map<Addr, nat>, blocks: seq<Addr>)
    requires ValidMap(aflMap)
    ensures Replay(aflMap, blocks).prev < MAP_SIZE
    ensures forall i :: 0 <= i < |Replay(aflMap, blocks).log| ==> Replay(aflMap, blocks).log[i] < MAP_SIZE
  {
    if blocks != [] {
      var r, addr := Replay(aflMap, blocks[..|blocks| - 1]), blocks[|blocks| - 1];
      ReplayInMap(aflMap, blocks[..|blocks| - 1]);
      if addr in aflMap {
        IndexInMap(aflMap[addr], r.prev);
      }
    }
  }

  lemma ReplayNext(aflMap: map<Addr, nat>, blocks: seq<Addr>, addr: Addr)
    ensures Replay(aflMap, blocks + [addr]) == Hit(aflMap, Replay(aflMap, blocks), addr)
  {
    assert (blocks + [addr])[..|blocks|] == blocks;
  }

  /** Blocks that have saturated may be skipped: leaving out their hits changes neither map nor later edges.
      This is what makes it sound to disable their breakpoints. */
  lemma SaturatedHitIsNoOp(aflMap: map<Addr, nat>, r: Reference, addr: Addr)
    requires addr in r.saturated
    ensures Hit(aflMap, r, addr) == r
  {
  }

  /** Saturation is for good, so a skipped block stays skipped for the rest of the run. */
  lemma {:induction false} SaturationGrows(aflMap: map<Addr, nat>, blocks: seq<Addr>, more: seq<Addr>)
    ensures Replay(aflMap, blocks).saturated <= Replay(aflMap, blocks + more).saturated
  {
    if more == [] {
      assert blocks + more == blocks;
    } else {
      SaturationGrows(aflMap, blocks, more[..|more| - 1]);
      assert blocks + more == blocks + more[..|more| - 1] + [more[|more| - 1]];
      ReplayNext(aflMap, blocks + more[..|more| - 1], more[|more| - 1]);
    }
  }

  /** Dropping from a run every hit of a block that had saturated before it gives the same map. */
  function WithoutSaturated(aflMap: map<Addr, nat>, blocks: seq<Addr>): seq<Addr> {
    if blocks == [] then []
    else
      var before, addr := blocks[..|blocks| - 1], blocks[|blocks| - 1];
      WithoutSaturated(aflMap, before) + (if addr in Replay(aflMap, before).saturated then [] else [addr])
  }

  lemma {:induction false} DisablingIsTransparent(aflMap: map<Addr, nat>, blocks: seq<Addr>)
    ensures Replay(aflMap, WithoutSaturated(aflMap, blocks)) == Replay(aflMap, blocks)
  {
    if blocks != [] {
      var before, addr := blocks[..|blocks| - 1], blocks[|blocks| - 1];
      DisablingIsTransparent(aflMap, before);
      ReplayNext(aflMap, WithoutSaturated(aflMap, before), addr);
      if addr in Replay(aflMap, before).saturated {
        assert WithoutSaturated(aflMap, blocks) == WithoutSaturated(aflMap, before);
      }
    }
  }

  lemma EmptyBitmap(bits: seq<nat>)
    requires |bits| == MAP_SIZE && forall i :: 0 <= i < |bits| ==> bits[i] == 0
    ensures bits == Bitmap([]) && NonZero(Bitmap([])) == 0
  {
    NonZeroOfZeros(Bitmap([]));
  }

  /** The byte and the counter that bbHap touches, for one more accepted edge. */
  lemma OneMoreEdge(log: seq<nat>, index: nat)
    requires index < MAP_SIZE
    ensures var b, c := Bitmap(log), Bitmap(log + [index]);
      && b[index] <= 255 && (b[index] == 255 <==> multiset(log)[index] >= 255)
      && c == (if b[index] == 255 then b else b[index := b[index] + 1])
      && NonZero(c) == NonZero(b) + (if b[index] == 0 then 1 else 0)
  {
    BitmapAppend(log, index);
    var b := Bitmap(log);
    NonZeroUpdate(b, index, Min(255, multiset(log)[index] + 1));
    if b[index] == 255 {
      assert b[index := 255] == b;
    }
  }
}
