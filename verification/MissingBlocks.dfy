/** The blocks that coverage.py could not reach when it set its breakpoints, filed under the page-table
    entry whose update will be watched (handleUnmapped). */
module MissingBlocks {
  import opened Addresses

  /** Where the page-table walk for a block ends. */
  datatype Place = Page | Pteg(at: int) | PageBase(at: int) | Table(at: int) | Nowhere

  /** missing_tables, missing_page_bases and missing_ptegs as one dictionary. */
  type Missing = map<Place, seq<Addr>>

  function PlaceOf(places: map<Addr, Place>, bb: Addr): Place {
    if bb in places then places[bb] else Nowhere
  }

  predicate Watched(p: Place) {
    p.Pteg? || p.PageBase? || p.Table?
  }

  function ListAt(m: Missing, p: Place): seq<Addr> {
    if p in m then m[p] else []
  }

  /** stopCover forgets the tables but keeps page bases and ptegs. */
  function WithoutTables(m: Missing): Missing {
    map p | p in m && !p.Table? :: m[p]
  }

  /** The blocks whose walk ends here. */
  function Under(blocks: seq<Addr>, places: map<Addr, Place>, p: Place): seq<Addr> {
    if blocks == [] then []
    else
      var before, bb := Under(blocks[..|blocks| - 1], places, p), blocks[|blocks| - 1];
      if PlaceOf(places, bb) == p then before + [bb] else before
  }

  /** Every block is in the list of its place, in order, and in no other; older entries stay in front. */
  ghost predicate Filed(before: Missing, after: Missing, blocks: seq<Addr>, places: map<Addr, Place>) {
    forall p :: Watched(p) ==> ListAt(after, p) == ListAt(before, p) + Under(blocks, places, p)
  }

  function FileOne(m: Missing, bb: Addr, p: Place): Missing {
    if Watched(p) then m[p := ListAt(m, p) + [bb]] else m
  }

  lemma UnderNext(blocks: seq<Addr>, bb: Addr, places: map<Addr, Place>, p: Place)
    ensures Under(blocks + [bb], places, p) == if PlaceOf(places, bb) == p then Under(blocks, places, p) + [bb]
      else Under(blocks, places, p)
  {
    assert (blocks + [bb])[..|blocks|] == blocks;
  }

  lemma FiledNext(before: Missing, m: Missing, blocks: seq<Addr>, places: map<Addr, Place>, bb: Addr)
    requires Filed(before, m, blocks, places)
    ensures Filed(before, FileOne(m, bb, PlaceOf(places, bb)), blocks + [bb], places)
  {
    hide Under;
    var after := FileOne(m, bb, PlaceOf(places, bb));
    forall p | Watched(p) ensures ListAt(after, p) == ListAt(before, p) + Under(blocks + [bb], places, p) {
      UnderNext(blocks, bb, places, p);
    }
  }

  lemma FiledNone(m: Missing, places: map<Addr, Place>)
    ensures Filed(m, m, [], places)
  {
  }

  /** The filing loses no block whose walk ends at a watched entry and invents none. */
  lemma {:induction false} UnderExact(blocks: seq<Addr>, places: map<Addr, Place>, p: Place)
    ensures forall bb :: bb in Under(blocks, places, p) <==> bb in blocks && PlaceOf(places, bb) == p
  {
    if blocks != [] {
      var most, bb := blocks[..|blocks| - 1], blocks[|blocks| - 1];
      UnderExact(most, places, p);
      assert blocks == most + [bb];
    }
  }

  /** A block is listed as often as the analysis lists it. */
  lemma {:induction false} UnderCounts(blocks: seq<Addr>, places: map<Addr, Place>, p: Place, bb: Addr)
    ensures multiset(Under(blocks, places, p))[bb] == if PlaceOf(places, bb) == p then multiset(blocks)[bb] else 0
  {
    if blocks != [] {
      var most, last := blocks[..|blocks| - 1], blocks[|blocks| - 1];
      UnderCounts(most, places, p, bb);
      assert blocks == most + [last];
    }
  }

  /** A new analysis forgets what waited for a page table, but not what waited for a page base or an entry group. */
  lemma TablesStartAfresh(before: Missing, after: Missing, blocks: seq<Addr>, places: map<Addr, Place>, at: int)
    requires Filed(WithoutTables(before), after, blocks, places)
    ensures ListAt(after, Table(at)) == Under(blocks, places, Table(at))
    ensures ListAt(after, PageBase(at)) == ListAt(before, PageBase(at)) + Under(blocks, places, PageBase(at))
    ensures ListAt(after, Pteg(at)) == ListAt(before, Pteg(at)) + Under(blocks, places, Pteg(at))
  {
    hide Under;
    assert Watched(Table(at)) && Watched(PageBase(at)) && Watched(Pteg(at));
    assert ListAt(WithoutTables(before), Table(at)) == [];
    assert [] + Under(blocks, places, Table(at)) == Under(blocks, places, Table(at));
  }

  // ---- Every block filed has a location in the edge map ----

  ghost predicate Known(blocks: seq<Addr>, aflMap: map<Addr, nat>) {
    forall bb :: bb in blocks ==> bb in aflMap
  }

  ghost predicate MissingKnown(m: Missing, aflMap: map<Addr, nat>) {
    forall p :: Watched(p) ==> Known(ListAt(m, p), aflMap)
  }

  lemma FiledKnown(before: Missing, after: Missing, blocks: seq<Addr>, places: map<Addr, Place>, aflMap: map<Addr, nat>)
    requires MissingKnown(before, aflMap) && Known(blocks, aflMap) && Filed(before, after, blocks, places)
    ensures MissingKnown(after, aflMap)
  {
    hide Under;
    forall p | Watched(p) ensures Known(ListAt(after, p), aflMap) {
      UnderExact(blocks, places, p);
    }
  }
}
