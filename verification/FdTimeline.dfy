/** The index of showFDs.py: for each file descriptor and thread a timeline of what it was set to, and
    the table of what is open now, which is the reference. */
module FdTimeline {
  import opened Collections

  type Fd = string
  type Tid = string
  datatype Key = Key(fd: Fd, tid: Tid)

  /** What a descriptor is. A pipe end names the thread and descriptor of the other end. */
  datatype Item =
    | File(name: string)
    | Bind(address: string)
    | Connect(address: string)
    | Accept(address: string)
    | AcceptBound(sockFd: Fd)
    | Pipe(first: bool, peerTid: Tid, peerFd: Fd)

  // ---- Timelines: dictionaries from cycle to item, in the order in which the cycles were inserted ----

  datatype Entry = Entry(cycle: int, item: Option<Item>)
  type Timeline = seq<Entry>

  /** Where the cycle is in the timeline, or its length. */
  function Index(tl: Timeline, cycle: int): (i: nat)
    ensures i <= |tl| && (i < |tl| ==> tl[i].cycle == cycle) && forall j :: 0 <= j < i ==> tl[j].cycle != cycle
  {
    if tl == [] then 0 else if tl[0].cycle == cycle then 0 else 1 + Index(tl[1..], cycle)
  }

  /** A cycle that is there keeps its place; a new one goes to the end. */
  function Put(tl: Timeline, cycle: int, item: Option<Item>): Timeline {
    var i := Index(tl, cycle);
    if i < |tl| then tl[i := Entry(cycle, item)] else tl + [Entry(cycle, item)]
  }

  function At(tl: Timeline, cycle: int): Option<Item> {
    var i := Index(tl, cycle);
    if i < |tl| then tl[i].item else None
  }

  lemma IndexIs(tl: Timeline, cycle: int, i: nat)
    requires i < |tl| && tl[i].cycle == cycle && forall j :: 0 <= j < i ==> tl[j].cycle != cycle
    ensures Index(tl, cycle) == i
  {
  }

  lemma PutIndex(tl: Timeline, cycle: int, item: Option<Item>)
    ensures Index(Put(tl, cycle, item), cycle) == Index(tl, cycle) < |Put(tl, cycle, item)|
    ensures At(Put(tl, cycle, item), cycle) == item
  {
    IndexIs(Put(tl, cycle, item), cycle, Index(tl, cycle));
  }

  lemma PutPut(tl: Timeline, cycle: int, a: Option<Item>, b: Option<Item>)
    ensures Put(Put(tl, cycle, a), cycle, b) == Put(tl, cycle, b)
  {
    PutIndex(tl, cycle, a);
  }

  // ---- The whole index ----

  type Dict = map<Key, Timeline>
  type Recent = map<Key, int>
  type Table = map<Key, Option<Item>>

  /** recent_cycle names a cycle of the timeline for every key, so getItem never fails. */
  ghost predicate Agree(dict: Dict, recent: Recent) {
    dict.Keys == recent.Keys && forall k :: k in dict ==> Index(dict[k], recent[k]) < |dict[k]|
  }

  /** What every key is now, according to the index. */
  function TableOf(dict: Dict, recent: Recent): Table {
    map k | k in dict && k in recent :: At(dict[k], recent[k])
  }

  function TimelineOf(dict: Dict, k: Key): Timeline {
    if k in dict then dict[k] else []
  }

  /** All these items set at one cycle. */
  function Changed(dict: Dict, changes: Table, cycle: int): Dict {
    map k | k in dict.Keys + changes.Keys ::
      if k in changes then Put(TimelineOf(dict, k), cycle, changes[k]) else dict[k]
  }

  function ChangedRecent(recent: Recent, changes: Table, cycle: int): Recent {
    map k | k in recent.Keys + changes.Keys :: if k in changes then cycle else recent[k]
  }

  lemma ChangedAt(dict: Dict, changes: Table, cycle: int, k: Key)
    ensures k in Changed(dict, changes, cycle) <==> k in dict || k in changes
    ensures k in changes ==> Changed(dict, changes, cycle)[k] == Put(TimelineOf(dict, k), cycle, changes[k])
    ensures k in dict && k !in changes ==> Changed(dict, changes, cycle)[k] == dict[k]
  {
    hide Put;
  }

  lemma ChangedRecentAt(recent: Recent, changes: Table, cycle: int, k: Key)
    ensures k in ChangedRecent(recent, changes, cycle) <==> k in recent || k in changes
    ensures k in changes ==> ChangedRecent(recent, changes, cycle)[k] == cycle
    ensures k in recent && k !in changes ==> ChangedRecent(recent, changes, cycle)[k] == recent[k]
  {
  }

  /** Setting items in the index sets them in the table. */
  lemma ChangedTable(dict: Dict, recent: Recent, changes: Table, cycle: int)
    requires Agree(dict, recent)
    ensures Agree(Changed(dict, changes, cycle), ChangedRecent(recent, changes, cycle))
    ensures TableOf(Changed(dict, changes, cycle), ChangedRecent(recent, changes, cycle)) ==
      TableOf(dict, recent) + changes
  {
    hide Put, At, Index, Changed, ChangedRecent;
    var after, since := Changed(dict, changes, cycle), ChangedRecent(recent, changes, cycle);
    forall k
      ensures (k in after <==> k in since) && (k in after <==> k in dict || k in changes)
      ensures k in after && k in since ==> Index(after[k], since[k]) < |after[k]|
      ensures k in after && k in since ==>
        At(after[k], since[k]) == if k in changes then changes[k] else At(dict[k], recent[k])
    {
      ChangedAt(dict, changes, cycle, k);
      ChangedRecentAt(recent, changes, cycle, k);
      if k in changes {
        PutIndex(TimelineOf(dict, k), cycle, changes[k]);
      }
    }
  }

  /** Two rounds of setting at one cycle are one round, in which the second has the last word. */
  lemma ChangedTwice(dict: Dict, a: Table, b: Table, cycle: int)
    ensures Changed(Changed(dict, a, cycle), b, cycle) == Changed(dict, a + b, cycle)
  {
    hide Put;
    forall k | k in a && k in b
      ensures Put(Put(TimelineOf(dict, k), cycle, a[k]), cycle, b[k]) == Put(TimelineOf(dict, k), cycle, b[k])
    {
      PutPut(TimelineOf(dict, k), cycle, a[k], b[k]);
    }
  }

  lemma ChangedRecentTwice(recent: Recent, a: Table, b: Table, cycle: int)
    ensures ChangedRecent(ChangedRecent(recent, a, cycle), b, cycle) == ChangedRecent(recent, a + b, cycle)
  {
  }

  // ---- What a traced call does to the table ----

  datatype Event =
    | Opened(fd: Fd, tid: Tid, name: string)
    | Closed(fd: Fd, tid: Tid)
    | Bound(fd: Fd, tid: Tid, address: string)
    | Connected(fd: Fd, tid: Tid, address: string)
    | Accepted(lineFd: Option<Fd>, tid: Tid, sockFd: Fd, newFd: Fd)
    | Piped(tid: Tid, fd1: Fd, fd2: Fd)
    | Duped(tid: Tid, oldFd: Fd, newFd: Fd)
    | Cloned(tid: Tid, newTid: Tid)
    | Exited(tid: Tid)

  type Binders = map<Tid, map<Fd, string>>

  predicate IsPipeTo(item: Option<Item>, tid: Tid, fd: Fd) {
    item.Some? && item.value.Pipe? && item.value.peerTid == tid && item.value.peerFd == fd
  }

  /** The ends in other threads of pipes whose this end is the given descriptor. */
  function PipesTo(table: Table, tid: Tid, fd: Fd): set<Key> {
    set k | k in table && k.tid != tid && IsPipeTo(table[k], tid, fd)
  }

  function AllNone(keys: set<Key>): Table {
    map k | k in keys :: None
  }

  function Retargeted(item: Option<Item>, newFd: Fd): Option<Item> {
    if item.Some? && item.value.Pipe? then Some(item.value.(peerFd := newFd)) else item
  }

  /** The other ends of pipes to a descriptor that was duplicated lead to the duplicate. */
  function Retargets(table: Table, tid: Tid, oldFd: Fd, newFd: Fd): Table {
    map k | k in PipesTo(table, tid, oldFd) :: Retargeted(table[k], newFd)
  }

  /** A pipe within the parent has its other end in the child from now on. */
  function Handed(item: Item, tid: Tid, newTid: Tid): Item {
    if item.Pipe? && item.peerTid == tid then item.(peerTid := newTid) else item
  }

  /** The parent's own pipes are set again. */
  predicate SetAgain(table: Table, tid: Tid, keys: set<Key>, k: Key) {
    k in keys && k in table && k.tid == tid && table[k].Some? && table[k].value.Pipe?
  }

  /** The child has what the parent has. */
  predicate Inherited(table: Table, tid: Tid, newTid: Tid, keys: set<Key>, k: Key) {
    k.tid == newTid && Key(k.fd, tid) in keys && Key(k.fd, tid) in table && table[Key(k.fd, tid)].Some?
  }

  function Clones(table: Table, tid: Tid, newTid: Tid, keys: set<Key>): Table {
    (map k | k in keys && SetAgain(table, tid, keys, k) :: Some(Handed(table[k].value, tid, newTid)))
    + (map k | k in (set p | p in keys :: Key(p.fd, newTid)) && Inherited(table, tid, newTid, keys, k) ::
         table[Key(k.fd, tid)])
  }

  lemma ClonesAt(table: Table, tid: Tid, newTid: Tid, keys: set<Key>, k: Key)
    ensures k in Clones(table, tid, newTid, keys) <==>
      SetAgain(table, tid, keys, k) || Inherited(table, tid, newTid, keys, k)
    ensures Inherited(table, tid, newTid, keys, k) ==> Clones(table, tid, newTid, keys)[k] == table[Key(k.fd, tid)]
    ensures SetAgain(table, tid, keys, k) && !Inherited(table, tid, newTid, keys, k) ==>
      Clones(table, tid, newTid, keys)[k] == Some(Handed(table[k].value, tid, newTid))
  {
    hide Handed;
    if Inherited(table, tid, newTid, keys, k) {
      assert Key(k.fd, tid) in keys && k == Key(Key(k.fd, tid).fd, newTid);
    }
  }

  /** Everything the thread had is closed, and with it the other ends of its pipes. */
  function Exits(table: Table, tid: Tid, keys: set<Key>): Table {
    AllNone(Ended(table, tid, keys))
  }

  /** A pipe end whose other end is one of these descriptors of the thread. */
  predicate LeadsTo(item: Option<Item>, tid: Tid, keys: set<Key>) {
    item.Some? && item.value.Pipe? && item.value.peerTid == tid && Key(item.value.peerFd, tid) in keys
  }

  function Ended(table: Table, tid: Tid, keys: set<Key>): set<Key> {
    set k | k in table && (if k.tid == tid then k in keys else LeadsTo(table[k], tid, keys))
  }

  function PipeEnds(tid: Tid, fd1: Fd, fd2: Fd): Table {
    map[Key(fd1, tid) := Some(Pipe(true, tid, fd2))] + map[Key(fd2, tid) := Some(Pipe(false, tid, fd1))]
  }

  /** The duplicate is what the descriptor is, if that is known. */
  function Copied(table: Table, tid: Tid, oldFd: Fd, newFd: Fd): Table {
    if Key(oldFd, tid) in table then map[Key(newFd, tid) := table[Key(oldFd, tid)]] else map[]
  }

  /** The items that the event sets. */
  function Changes(table: Table, binders: Binders, e: Event): Table {
    match e
    case Opened(fd, tid, name) => map[Key(fd, tid) := Some(File(name))]
    case Closed(fd, tid) => map[Key(fd, tid) := None] + AllNone(PipesTo(table, tid, fd))
    case Bound(fd, tid, address) => map[Key(fd, tid) := Some(Bind(address))]
    case Connected(fd, tid, address) => map[Key(fd, tid) := Some(Connect(address))]
    case Accepted(fd, tid, sockFd, newFd) => map[Key(newFd, tid) := Some(AcceptItem(binders, e))]
    case Piped(tid, fd1, fd2) => PipeEnds(tid, fd1, fd2)
    case Duped(tid, oldFd, newFd) => Copied(table, tid, oldFd, newFd) + Retargets(table, tid, oldFd, newFd)
    case Cloned(tid, newTid) => Clones(table, tid, newTid, table.Keys)
    case Exited(tid) => Exits(table, tid, table.Keys)
  }

  /** For a socket that was bound the address comes from the descriptor of the line, not from the socket's. */
  function AcceptItem(binders: Binders, e: Event): Item
    requires e.Accepted?
  {
    if e.tid in binders && e.sockFd in binders[e.tid] then
      if e.lineFd.Some? && e.lineFd.value in binders[e.tid] then Accept(binders[e.tid][e.lineFd.value]) else Accept("")
    else AcceptBound(e.sockFd)
  }

  function Binds(binders: Binders, e: Event): Binders {
    if e.Bound? then
      var known := if e.tid in binders then binders[e.tid] else map[];
      binders[e.tid := known[e.fd := e.address]]
    else binders
  }

  /** The events at which the script gives up: a descriptor called NULL, or an accept on a bound socket
      whose line names no bound descriptor. */
  predicate Stops(table: Table, binders: Binders, e: Event) {
    match e
    case Opened(fd, _, _) => fd == "NULL"
    case Closed(fd, _) => fd == "NULL"
    case Bound(fd, _, _) => fd == "NULL"
    case Connected(fd, _, _) => fd == "NULL"
    case Accepted(fd, tid, sockFd, newFd) =>
      newFd == "NULL" || (tid in binders && sockFd in binders[tid] && !(fd.Some? && fd.value in binders[tid]))
    case Piped(_, fd1, fd2) => fd1 == "NULL" || fd2 == "NULL"
    case Duped(tid, oldFd, newFd) => newFd == "NULL" && Key(oldFd, tid) in table
    case Cloned(_, _) => false
    case Exited(_) => false
  }

  // ---- What these changes mean ----

  function Then(table: Table, e: Event): Table {
    table + Changes(table, map[], e)
  }

  /** A closed descriptor is closed, no other thread is left with the other end of a pipe to it, and
      everything else stays as it was. */
  lemma AfterClose(table: Table, fd: Fd, tid: Tid)
    ensures var after := Then(table, Closed(fd, tid));
      && after.Keys == table.Keys + {Key(fd, tid)} && after[Key(fd, tid)] == None
      && (forall k :: k in after && k.tid != tid ==> !IsPipeTo(after[k], tid, fd))
      && (forall k :: k in table && k != Key(fd, tid) && (k.tid == tid || !IsPipeTo(table[k], tid, fd)) ==>
        after[k] == table[k])
  {
  }

  /** A thread that has gone has nothing open, no other thread has a pipe to any descriptor it had, and
      everything else stays as it was. */
  lemma AfterExit(table: Table, tid: Tid)
    ensures var after := Then(table, Exited(tid));
      && after.Keys == table.Keys
      && (forall k :: k in after && k.tid == tid ==> after[k] == None)
      && (forall k, fd :: k in after && k.tid != tid && Key(fd, tid) in table ==> !IsPipeTo(after[k], tid, fd))
      && (forall k :: k in after && k.tid != tid ==>
        after[k] == table[k] || (after[k] == None && exists fd :: Key(fd, tid) in table && IsPipeTo(table[k], tid, fd)))
  {
    forall k | k in table && k.tid != tid && LeadsTo(table[k], tid, table.Keys)
      ensures exists fd :: Key(fd, tid) in table && IsPipeTo(table[k], tid, fd)
    {
      assert IsPipeTo(table[k], tid, table[k].value.peerFd);
    }
  }

  /** An entry that stays as it was. */
  predicate Stays(table: Table, after: Table, k: Key)
    requires k in table
  {
    k in after && after[k] == table[k]
  }

  /** A pipe whose other end is in this thread. */
  predicate PipesInto(item: Option<Item>, tid: Tid) {
    item.Some? && item.value.Pipe? && item.value.peerTid == tid
  }

  /** A child has what its parent had open, the parent's pipes within itself lead to the child, and everything
      else stays as it was. */
  lemma AfterClone(table: Table, tid: Tid, child: Tid)
    requires child != tid
    ensures var after := Then(table, Cloned(tid, child));
      && (forall k :: k in after ==> k in table || (k.tid == child && Key(k.fd, tid) in table))
      && (forall fd :: Key(fd, tid) in table && table[Key(fd, tid)].Some? ==>
        Key(fd, child) in after && after[Key(fd, child)] == table[Key(fd, tid)])
      && (forall fd :: Key(fd, child) in table && (Key(fd, tid) in table ==> table[Key(fd, tid)] == None) ==>
        Stays(table, after, Key(fd, child)))
      && (forall fd :: Key(fd, tid) in table && PipesInto(table[Key(fd, tid)], tid) ==>
        var pipe := table[Key(fd, tid)].value;
        Key(fd, tid) in after && after[Key(fd, tid)] == Some(Pipe(pipe.first, child, pipe.peerFd)))
      && (forall fd :: Key(fd, tid) in table && !PipesInto(table[Key(fd, tid)], tid) ==>
        Stays(table, after, Key(fd, tid)))
      && (forall k :: k in table && k.tid != tid && k.tid != child ==> Stays(table, after, k))
  {
    hide Then, PipesInto, Stays;
    forall fd {
      AfterCloneOf(table, tid, child, fd);
    }
    forall k {
      CloneSpares(table, tid, child, k);
    }
  }

  /** What a clone does to one descriptor of parent and child. */
  lemma AfterCloneOf(table: Table, tid: Tid, child: Tid, fd: Fd)
    requires child != tid
    ensures var after := Then(table, Cloned(tid, child));
      && (Key(fd, tid) in table && table[Key(fd, tid)].Some? ==>
        Key(fd, child) in after && after[Key(fd, child)] == table[Key(fd, tid)])
      && (Key(fd, child) in table && (Key(fd, tid) in table ==> table[Key(fd, tid)] == None) ==>
        Stays(table, after, Key(fd, child)))
      && (Key(fd, tid) in table && PipesInto(table[Key(fd, tid)], tid) ==>
        var pipe := table[Key(fd, tid)].value;
        Key(fd, tid) in after && after[Key(fd, tid)] == Some(Pipe(pipe.first, child, pipe.peerFd)))
      && (Key(fd, tid) in table && !PipesInto(table[Key(fd, tid)], tid) ==> Stays(table, after, Key(fd, tid)))
  {
    hide Clones;
    ClonesAt(table, tid, child, table.Keys, Key(fd, tid));
    ClonesAt(table, tid, child, table.Keys, Key(fd, child));
  }

  lemma CloneSpares(table: Table, tid: Tid, child: Tid, k: Key)
    requires child != tid
    ensures var after := Then(table, Cloned(tid, child));
      && (k in after ==> k in table || (k.tid == child && Key(k.fd, tid) in table))
      && (k in table && k.tid != tid && k.tid != child ==> Stays(table, after, k))
  {
    hide Clones, Handed;
    ClonesAt(table, tid, child, table.Keys, k);
  }

  /** A duplicate is what the descriptor was, if that is known; the pipe ends in other threads that led to the
      descriptor lead to the duplicate; and everything else stays as it was. */
  lemma AfterDup(table: Table, tid: Tid, oldFd: Fd, newFd: Fd)
    ensures var after, known := Then(table, Duped(tid, oldFd, newFd)), Key(oldFd, tid) in table;
      && after.Keys == table.Keys + (if known then {Key(newFd, tid)} else {})
      && (known ==> after[Key(newFd, tid)] == table[Key(oldFd, tid)])
      && (!known && Key(newFd, tid) in table ==> Stays(table, after, Key(newFd, tid)))
      && (forall fd :: Key(fd, tid) in table && fd != newFd ==> Stays(table, after, Key(fd, tid)))
      && (forall k :: k in table && k.tid != tid && IsPipeTo(table[k], tid, oldFd) ==>
        after[k] == Some(Pipe(table[k].value.first, tid, newFd)))
      && (forall k :: k in table && k.tid != tid && !IsPipeTo(table[k], tid, oldFd) ==> Stays(table, after, k))
  {
  }

  /** What a descriptor is after the call that made it, with all others as they were. */
  lemma AfterNaming(table: Table, fd: Fd, tid: Tid, name: string)
    ensures Then(table, Opened(fd, tid, name)) == table[Key(fd, tid) := Some(File(name))]
    ensures Then(table, Bound(fd, tid, name)) == table[Key(fd, tid) := Some(Bind(name))]
    ensures Then(table, Connected(fd, tid, name)) == table[Key(fd, tid) := Some(Connect(name))]
  {
  }

  /** The two ends of a pipe within one thread. */
  predicate PipeWithin(table: Table, tid: Tid, fd1: Fd, fd2: Fd) {
    && Key(fd1, tid) in table && table[Key(fd1, tid)] == Some(Pipe(true, tid, fd2))
    && Key(fd2, tid) in table && table[Key(fd2, tid)] == Some(Pipe(false, tid, fd1))
  }

  lemma AfterPipe(table: Table, tid: Tid, fd1: Fd, fd2: Fd)
    requires fd1 != fd2
    ensures PipeWithin(Then(table, Piped(tid, fd1, fd2)), tid, fd1, fd2)
    ensures Then(table, Piped(tid, fd1, fd2)).Keys == table.Keys + {Key(fd1, tid), Key(fd2, tid)}
    ensures forall k :: k in table && k != Key(fd1, tid) && k != Key(fd2, tid) ==>
      Then(table, Piped(tid, fd1, fd2))[k] == table[k]
  {
  }

  lemma AfterClonePipe(table: Table, tid: Tid, child: Tid, fd1: Fd, fd2: Fd)
    requires child != tid && PipeWithin(table, tid, fd1, fd2)
    ensures var cloned := Then(table, Cloned(tid, child));
      && Key(fd1, tid) in cloned && cloned[Key(fd1, tid)] == Some(Pipe(true, child, fd2))
      && Key(fd2, child) in cloned && cloned[Key(fd2, child)] == Some(Pipe(false, tid, fd1))
  {
    hide Clones;
    ClonesAt(table, tid, child, table.Keys, Key(fd1, tid));
    ClonesAt(table, tid, child, table.Keys, Key(fd2, child));
  }

  /** A pipe made before a clone connects parent and child after it, in both directions, and when the child
      closes its end the parent's end goes too. */
  lemma PipeAcrossClone(table: Table, tid: Tid, child: Tid, fd1: Fd, fd2: Fd)
    requires child != tid && fd1 != fd2
    ensures var cloned := Then(Then(table, Piped(tid, fd1, fd2)), Cloned(tid, child));
      && Key(fd1, tid) in cloned && cloned[Key(fd1, tid)] == Some(Pipe(true, child, fd2))
      && Key(fd2, child) in cloned && cloned[Key(fd2, child)] == Some(Pipe(false, tid, fd1))
      && Key(fd1, tid) in Then(cloned, Closed(fd2, child)) && Then(cloned, Closed(fd2, child))[Key(fd1, tid)] == None
  {
    hide Changes, Clones;
    var piped := Then(table, Piped(tid, fd1, fd2));
    AfterPipe(table, tid, fd1, fd2);
    AfterClonePipe(piped, tid, child, fd1, fd2);
    OtherEndCloses(Then(piped, Cloned(tid, child)), Key(fd1, tid), child, fd2);
  }

  lemma OtherEndCloses(table: Table, k: Key, tid: Tid, fd: Fd)
    requires k in table && k.tid != tid && IsPipeTo(table[k], tid, fd)
    ensures k in Then(table, Closed(fd, tid)) && Then(table, Closed(fd, tid))[k] == None
  {
  }

  // ---- The reference: replaying a trace ----

  datatype Line = Line(cycle: int, event: Event)

  datatype World = World(table: Table, binders: Binders)

  function Replay(trace: seq<Line>): World {
    if trace == [] then World(map[], map[])
    else
      var w, e := Replay(trace[..|trace| - 1]), trace[|trace| - 1].event;
      World(w.table + Changes(w.table, w.binders, e), Binds(w.binders, e))
  }

  /** The script gets through the whole trace. */
  predicate Completes(trace: seq<Line>) {
    forall n :: 0 <= n < |trace| ==> !Stops(Replay(trace[..n]).table, Replay(trace[..n]).binders, trace[n].event)
  }

  /** The address that the script remembers for a descriptor. */
  function AddressOf(binders: Binders, fd: Fd, tid: Tid): Option<string> {
    if tid in binders && fd in binders[tid] then Some(binders[tid][fd]) else None
  }

  ghost predicate NamesNull(table: Table) {
    exists k :: k in table && k.fd == "NULL"
  }

  /** An accept that finds its socket bound, and nothing bound under the descriptor of its line. */
  predicate AcceptFails(binders: Binders, e: Event) {
    e.Accepted? && AddressOf(binders, e.sockFd, e.tid).Some?
    && (e.lineFd.Some? ==> AddressOf(binders, e.lineFd.value, e.tid) == None)
  }

  /** The script stops exactly at such an accept and at an event that sets a descriptor called NULL. */
  lemma StopsAtNull(table: Table, binders: Binders, e: Event)
    requires !NamesNull(table)
    ensures Stops(table, binders, e) <==> AcceptFails(binders, e) || NamesNull(Changes(table, binders, e))
  {
    hide Retargeted, Handed;
    match e
    case Cloned(tid, newTid) =>
      hide Clones;
      forall k {
        ClonesAt(table, tid, newTid, table.Keys, k);
      }
    case Piped(tid, fd1, fd2) =>
      assert Key(fd1, tid) in PipeEnds(tid, fd1, fd2) && Key(fd2, tid) in PipeEnds(tid, fd1, fd2);
    case Opened(fd, tid, _) => assert Key(fd, tid) in Changes(table, binders, e);
    case Closed(fd, tid) => assert Key(fd, tid) in Changes(table, binders, e);
    case Bound(fd, tid, _) => assert Key(fd, tid) in Changes(table, binders, e);
    case Connected(fd, tid, _) => assert Key(fd, tid) in Changes(table, binders, e);
    case Accepted(_, tid, _, newFd) => assert Key(newFd, tid) in Changes(table, binders, e);
    case Duped(tid, oldFd, newFd) =>
      assert Key(oldFd, tid) in table ==> Key(newFd, tid) in Changes(table, binders, e);
    case Exited(_) =>
  }

  /** As long as it gets through, no descriptor called NULL is listed. */
  lemma {:induction false} NullNeverListed(trace: seq<Line>)
    requires Completes(trace)
    ensures !NamesNull(Replay(trace).table)
  {
    hide Changes, Stops;
    if trace != [] {
      var n := |trace| - 1;
      assert Completes(trace[..n]) by {
        forall m | 0 <= m < n
          ensures !Stops(Replay(trace[..n][..m]).table, Replay(trace[..n][..m]).binders, trace[..n][m].event)
        {
          assert trace[..n][..m] == trace[..m];
        }
      }
      NullNeverListed(trace[..n]);
      var w := Replay(trace[..n]);
      assert !Stops(w.table, w.binders, trace[n].event);
      StopsAtNull(w.table, w.binders, trace[n].event);
    }
  }

  /** A socket once bound remains known by its thread. */
  lemma {:induction false} BoundForGood(trace: seq<Line>, b: nat, n: nat)
    requires b < n <= |trace| && trace[b].event.Bound?
    ensures trace[b].event.tid in Replay(trace[..n]).binders
      && trace[b].event.fd in Replay(trace[..n]).binders[trace[b].event.tid]
  {
    hide Changes;
    assert trace[..n][..n - 1] == trace[..n - 1];
    if b < n - 1 {
      BoundForGood(trace, b, n - 1);
    }
  }

  /** The n-th event is the last by which the thread has bound the descriptor, to this address. */
  ghost predicate BoundLast(trace: seq<Line>, n: nat, fd: Fd, tid: Tid, address: string) {
    && n < |trace| && trace[n].event == Bound(fd, tid, address)
    && forall m :: n < m < |trace| ==> !(trace[m].event.Bound? && trace[m].event.fd == fd && trace[m].event.tid == tid)
  }

  ghost predicate IsBoundTo(trace: seq<Line>, fd: Fd, tid: Tid, address: string) {
    exists n: nat :: BoundLast(trace, n, fd, tid, address)
  }

  lemma BoundNext(most: seq<Line>, line: Line, fd: Fd, tid: Tid, address: string)
    ensures IsBoundTo(most + [line], fd, tid, address) <==>
      if line.event.Bound? && line.event.fd == fd && line.event.tid == tid then line.event.address == address
      else IsBoundTo(most, fd, tid, address)
  {
    var trace := most + [line];
    if line.event.Bound? && line.event.fd == fd && line.event.tid == tid {
      if line.event.address == address {
        assert BoundLast(trace, |most|, fd, tid, address);
      }
      assert trace[|most|] == line;
      forall n: nat | BoundLast(trace, n, fd, tid, address) ensures line.event.address == address {}
    } else {
      forall n: nat ensures BoundLast(trace, n, fd, tid, address) <==> BoundLast(most, n, fd, tid, address) {
        if BoundLast(trace, n, fd, tid, address) {
          assert forall m :: n < m < |most| ==> trace[m] == most[m];
        }
      }
    }
  }

  /** It is the one that the thread last bound the descriptor to, closed or not. */
  lemma {:induction false} BindersExact(trace: seq<Line>, fd: Fd, tid: Tid, address: string)
    ensures AddressOf(Replay(trace).binders, fd, tid) == Some(address) <==> IsBoundTo(trace, fd, tid, address)
  {
    hide Changes, IsBoundTo;
    if trace == [] {
      NeverBound(fd, tid, address);
    } else {
      var most, line := trace[..|trace| - 1], trace[|trace| - 1];
      assert trace == most + [line];
      BindersExact(most, fd, tid, address);
      BoundNext(most, line, fd, tid, address);
    }
  }

  lemma NeverBound(fd: Fd, tid: Tid, address: string)
    ensures !IsBoundTo([], fd, tid, address)
  {
  }

  /** The new descriptor of an accept on a socket that the thread never bound names the socket. */
  lemma AcceptOnUnbound(trace: seq<Line>, lineFd: Option<Fd>, tid: Tid, sockFd: Fd, newFd: Fd, cycle: int)
    requires newFd != "NULL" && forall address :: !IsBoundTo(trace, sockFd, tid, address)
    ensures var w, e := Replay(trace), Accepted(lineFd, tid, sockFd, newFd);
      && !Stops(w.table, w.binders, e)
      && Replay(trace + [Line(cycle, e)]) == World(w.table[Key(newFd, tid) := Some(AcceptBound(sockFd))], w.binders)
  {
    hide IsBoundTo;
    var known := AddressOf(Replay(trace).binders, sockFd, tid);
    if known.Some? {
      BindersExact(trace, sockFd, tid, known.value);
    }
    assert (trace + [Line(cycle, Accepted(lineFd, tid, sockFd, newFd))])[..|trace|] == trace;
  }

  /** On a socket that the thread has bound it names the address that the line's descriptor was last bound to. */
  lemma AcceptOnBound(trace: seq<Line>, lineFd: Fd, tid: Tid, sockFd: Fd, newFd: Fd, cycle: int, own: string,
      address: string)
    requires newFd != "NULL" && IsBoundTo(trace, sockFd, tid, own) && IsBoundTo(trace, lineFd, tid, address)
    ensures var w, e := Replay(trace), Accepted(Some(lineFd), tid, sockFd, newFd);
      && !Stops(w.table, w.binders, e)
      && Replay(trace + [Line(cycle, e)]) == World(w.table[Key(newFd, tid) := Some(Accept(address))], w.binders)
  {
    hide IsBoundTo;
    BindersExact(trace, sockFd, tid, own);
    BindersExact(trace, lineFd, tid, address);
    assert (trace + [Line(cycle, Accepted(Some(lineFd), tid, sockFd, newFd))])[..|trace|] == trace;
  }

  /** The script gets through no trace in which a bound socket accepts and the line names no descriptor but
      the two of the call. */
  lemma AcceptOnBoundStops(trace: seq<Line>, b: nat, a: nat)
    requires b < a < |trace| && trace[b].event.Bound? && trace[a].event.Accepted?
    requires trace[a].event.tid == trace[b].event.tid && trace[a].event.sockFd == trace[b].event.fd
    requires trace[a].event.lineFd == None
    ensures !Completes(trace)
  {
    hide Replay;
    BoundForGood(trace, b, a);
    assert Stops(Replay(trace[..a]).table, Replay(trace[..a]).binders, trace[a].event);
  }

  lemma BindAcceptStops(tid: Tid)
    ensures !Completes([Line(1, Bound("3", tid, "x")), Line(2, Accepted(None, tid, "3", "4"))])
  {
    hide Completes;
    AcceptOnBoundStops([Line(1, Bound("3", tid, "x")), Line(2, Accepted(None, tid, "3", "4"))], 0, 1);
  }

  datatype FdIndex = FdIndex(dict: Dict, recent: Recent)

  /** The index that the script builds for a trace. */
  function Indexed(trace: seq<Line>): FdIndex {
    if trace == [] then FdIndex(map[], map[])
    else
      var before, w, line := Indexed(trace[..|trace| - 1]), Replay(trace[..|trace| - 1]), trace[|trace| - 1];
      var changes := Changes(w.table, w.binders, line.event);
      FdIndex(Changed(before.dict, changes, line.cycle), ChangedRecent(before.recent, changes, line.cycle))
  }

  /** Whatever the cycles, the index knows what is open at the end of the trace. */
  lemma {:induction false} IndexedNow(trace: seq<Line>)
    ensures Agree(Indexed(trace).dict, Indexed(trace).recent)
    ensures TableOf(Indexed(trace).dict, Indexed(trace).recent) == Replay(trace).table
  {
    hide Changes;
    if trace != [] {
      var most, line := trace[..|trace| - 1], trace[|trace| - 1];
      IndexedNow(most);
      var changes := Changes(Replay(most).table, Replay(most).binders, line.event);
      ChangedTable(Indexed(most).dict, Indexed(most).recent, changes, line.cycle);
    }
  }

  // ---- show: what was open at a cycle ----

  /** The last item of the timeline before the first cycle that is too late. */
  function LastBefore(tl: Timeline, want: int): Option<Item> {
    if tl == [] || tl[0].cycle >= want then None
    else if |tl| == 1 || tl[1].cycle >= want then tl[0].item
    else LastBefore(tl[1..], want)
  }

  /** It stops at the first cycle that is not before, in whatever order they come. */
  lemma {:induction false} LastBeforeExact(tl: Timeline, want: int, k: nat)
    requires k <= |tl| && (forall i :: 0 <= i < k ==> tl[i].cycle < want) && (k < |tl| ==> tl[k].cycle >= want)
    ensures LastBefore(tl, want) == if k == 0 then None else tl[k - 1].item
  {
    if k > 1 {
      LastBeforeExact(tl[1..], want, k - 1);
    }
  }

  function Shown(dict: Dict, want: int): map<Key, Item> {
    map k | k in dict && LastBefore(dict[k], want).Some? :: LastBefore(dict[k], want).value
  }

  /** The open descriptors of a table. */
  function OpenOnes(table: Table): map<Key, Item> {
    map k | k in table && table[k].Some? :: table[k].value
  }

  predicate Nondecreasing(trace: seq<Line>) {
    forall i, j :: 0 <= i < j < |trace| ==> trace[i].cycle <= trace[j].cycle
  }

  /** The events before a cycle. */
  function Before(trace: seq<Line>, want: int): seq<Line> {
    if trace == [] || trace[|trace| - 1].cycle < want then trace else Before(trace[..|trace| - 1], want)
  }

  /** A timeline in order, none of it later than now. */
  ghost predicate Ordered(tl: Timeline, now: int) {
    (forall i, j :: 0 <= i < j < |tl| ==> tl[i].cycle < tl[j].cycle) && forall i :: 0 <= i < |tl| ==> tl[i].cycle <= now
  }

  /** At the current cycle an item is added at the end, or replaces the last. */
  lemma PutAtEnd(tl: Timeline, now: int, cycle: int, item: Option<Item>)
    requires Ordered(tl, now) && now <= cycle
    ensures Put(tl, cycle, item) ==
      (if tl != [] && tl[|tl| - 1].cycle == cycle then tl[..|tl| - 1] else tl) + [Entry(cycle, item)]
  {
    if tl != [] && tl[|tl| - 1].cycle == cycle {
      IndexIs(tl, cycle, |tl| - 1);
    }
  }

  lemma PutOrdered(tl: Timeline, now: int, cycle: int, item: Option<Item>)
    requires Ordered(tl, now) && now <= cycle
    ensures var p := Put(tl, cycle, item); Ordered(p, cycle) && p != [] && p[|p| - 1] == Entry(cycle, item)
  {
    hide Put;
    PutAtEnd(tl, now, cycle, item);
  }

  /** Entries from `want` on do not matter. */
  lemma {:induction false} LastBeforeIgnores(tl: Timeline, late: Entry, want: int)
    requires late.cycle >= want
    ensures LastBefore(tl + [late], want) == LastBefore(tl, want)
  {
    if tl == [] || tl[0].cycle >= want || |tl| == 1 {
    } else {
      assert (tl + [late])[1..] == tl[1..] + [late];
      LastBeforeIgnores(tl[1..], late, want);
    }
  }

  /** When everything is before `want`, the last entry is the one shown. */
  lemma {:induction false} LastBeforeAll(tl: Timeline, want: int)
    requires tl != [] && forall i :: 0 <= i < |tl| ==> tl[i].cycle < want
    ensures LastBefore(tl, want) == tl[|tl| - 1].item
  {
    if |tl| > 1 {
      LastBeforeAll(tl[1..], want);
    }
  }

  lemma PutLate(tl: Timeline, now: int, cycle: int, item: Option<Item>, want: int)
    requires Ordered(tl, now) && now <= cycle && want <= cycle
    ensures LastBefore(Put(tl, cycle, item), want) == LastBefore(tl, want)
  {
    hide Put, LastBefore;
    PutAtEnd(tl, now, cycle, item);
    LastBeforeIgnores(tl, Entry(cycle, item), want);
    if tl != [] && tl[|tl| - 1].cycle == cycle {
      var most := tl[..|tl| - 1];
      assert tl == most + [tl[|tl| - 1]];
      LastBeforeIgnores(most, tl[|tl| - 1], want);
      LastBeforeIgnores(most, Entry(cycle, item), want);
    }
  }

  ghost predicate AllOrdered(x: FdIndex, now: int) {
    forall k :: k in x.dict && k in x.recent ==>
      Ordered(x.dict[k], now) && x.dict[k] != [] && x.dict[k][|x.dict[k]| - 1].cycle == x.recent[k]
  }

  lemma ChangedOrdered(x: FdIndex, now: int, changes: Table, cycle: int)
    requires AllOrdered(x, now) && now <= cycle && x.dict.Keys == x.recent.Keys
    ensures AllOrdered(FdIndex(Changed(x.dict, changes, cycle), ChangedRecent(x.recent, changes, cycle)), cycle)
  {
    hide Changed, ChangedRecent, Put, TimelineOf;
    var dict, recent := Changed(x.dict, changes, cycle), ChangedRecent(x.recent, changes, cycle);
    forall k | k in dict && k in recent
      ensures Ordered(dict[k], cycle) && dict[k] != [] && dict[k][|dict[k]| - 1].cycle == recent[k]
    {
      ChangedAt(x.dict, changes, cycle, k);
      ChangedRecentAt(x.recent, changes, cycle, k);
      if k in changes {
        OrderedAt(x, now, k);
        PutOrdered(TimelineOf(x.dict, k), now, cycle, changes[k]);
      }
    }
  }

  lemma OrderedAt(x: FdIndex, now: int, k: Key)
    requires AllOrdered(x, now) && x.dict.Keys == x.recent.Keys
    ensures Ordered(TimelineOf(x.dict, k), now)
  {
  }

  lemma ChangedLate(x: FdIndex, now: int, changes: Table, cycle: int, want: int)
    requires x.dict.Keys == x.recent.Keys && AllOrdered(x, now) && now <= cycle && want <= cycle
    ensures Shown(Changed(x.dict, changes, cycle), want) == Shown(x.dict, want)
  {
    hide Changed, Put, LastBefore, AllOrdered;
    var after := Changed(x.dict, changes, cycle);
    NothingBefore(want);
    forall k ensures LastBefore(TimelineOf(after, k), want) == LastBefore(TimelineOf(x.dict, k), want) {
      ChangedAt(x.dict, changes, cycle, k);
      if k in changes {
        OrderedAt(x, now, k);
        PutLate(TimelineOf(x.dict, k), now, cycle, changes[k], want);
      }
    }
    SameShown(after, x.dict, want);
  }

  lemma SameShown(a: Dict, b: Dict, want: int)
    requires forall k :: LastBefore(TimelineOf(a, k), want) == LastBefore(TimelineOf(b, k), want)
    ensures Shown(a, want) == Shown(b, want)
  {
    hide LastBefore;
    NothingBefore(want);
    forall k ensures k in Shown(a, want) <==> LastBefore(TimelineOf(a, k), want).Some? {}
    forall k ensures k in Shown(b, want) <==> LastBefore(TimelineOf(b, k), want).Some? {}
  }

  lemma NothingBefore(want: int)
    ensures LastBefore([], want) == None
  {
  }

  /** A trace in order gives timelines in order, and recent_cycle is the greatest cycle of each. */
  lemma {:induction false} RecentIsGreatest(trace: seq<Line>)
    requires Nondecreasing(trace)
    ensures AllOrdered(Indexed(trace), if trace == [] then 0 else trace[|trace| - 1].cycle)
  {
    hide Changes;
    if trace != [] {
      var most, line := trace[..|trace| - 1], trace[|trace| - 1];
      RecentIsGreatest(most);
      IndexedNow(most);
      var changes := Changes(Replay(most).table, Replay(most).binders, line.event);
      if most == [] {
        ChangedOrdered(Indexed(most), line.cycle, changes, line.cycle);
      } else {
        assert trace[|most| - 1].cycle <= trace[|most|].cycle;
        ChangedOrdered(Indexed(most), most[|most| - 1].cycle, changes, line.cycle);
      }
    }
  }

  /** When the whole trace is before `want`, what is shown is what is open now. */
  lemma ShownNow(x: FdIndex, now: int, want: int)
    requires Agree(x.dict, x.recent) && AllOrdered(x, now) && now < want
    ensures Shown(x.dict, want) == OpenOnes(TableOf(x.dict, x.recent))
  {
    hide LastBefore, At;
    forall k | k in x.dict ensures LastBefore(x.dict[k], want) == At(x.dict[k], x.recent[k]) {
      LastBeforeAll(x.dict[k], want);
      LastIsRecent(x.dict[k], now);
    }
  }

  lemma LastIsRecent(tl: Timeline, now: int)
    requires tl != [] && Ordered(tl, now)
    ensures At(tl, tl[|tl| - 1].cycle) == tl[|tl| - 1].item
  {
    IndexIs(tl, tl[|tl| - 1].cycle, |tl| - 1);
  }

  lemma EarlyTrace(trace: seq<Line>, want: int)
    requires Nondecreasing(trace) && trace != [] && trace[|trace| - 1].cycle < want
    ensures Shown(Indexed(trace).dict, want) == OpenOnes(Replay(trace).table)
  {
    hide Indexed, Replay, Shown, OpenOnes;
    IndexedNow(trace);
    RecentIsGreatest(trace);
    ShownNow(Indexed(trace), trace[|trace| - 1].cycle, want);
  }

  lemma LateEvent(most: seq<Line>, line: Line, want: int)
    requires Nondecreasing(most + [line]) && want <= line.cycle
    ensures Nondecreasing(most)
    ensures Shown(Indexed(most + [line]).dict, want) == Shown(Indexed(most).dict, want)
  {
    hide Changes, Shown, Changed, AllOrdered, Replay;
    var w, trace := Replay(most), most + [line];
    assert trace[..|most|] == most;
    assert forall i :: 0 <= i < |most| ==> most[i] == trace[i];
    IndexedNow(most);
    RecentIsGreatest(most);
    if most == [] {
      NothingOrdered(line.cycle);
      ChangedLate(Indexed(most), line.cycle, Changes(w.table, w.binders, line.event), line.cycle, want);
    } else {
      assert trace[|most| - 1].cycle <= trace[|most|].cycle;
      ChangedLate(Indexed(most), most[|most| - 1].cycle, Changes(w.table, w.binders, line.event), line.cycle, want);
    }
  }

  /** The point of the script: for a trace whose cycles never go back, what it shows for a cycle, after
      reading the whole trace, is what a replay of only the events before that cycle leaves open. */
  lemma {:induction false} ShowIsReplay(trace: seq<Line>, want: int)
    requires Nondecreasing(trace)
    ensures Shown(Indexed(trace).dict, want) == OpenOnes(Replay(Before(trace, want)).table)
  {
    hide Shown, OpenOnes, Indexed, Replay;
    if trace == [] {
      EmptyShown(want);
    } else if trace[|trace| - 1].cycle < want {
      EarlyTrace(trace, want);
    } else {
      var most, line := trace[..|trace| - 1], trace[|trace| - 1];
      assert trace == most + [line];
      LateEvent(most, line, want);
      ShowIsReplay(most, want);
    }
  }

  /** The events replayed are a prefix of the trace, and it is those before the cycle. */
  lemma {:induction false} BeforeIsPrefix(trace: seq<Line>, want: int)
    requires Nondecreasing(trace)
    ensures Before(trace, want) <= trace
    ensures forall i :: 0 <= i < |trace| ==> (trace[i].cycle < want <==> i < |Before(trace, want)|)
  {
    if trace != [] && trace[|trace| - 1].cycle >= want {
      BeforeIsPrefix(trace[..|trace| - 1], want);
    }
  }

  lemma EmptyShown(want: int)
    ensures Shown(Indexed([]).dict, want) == OpenOnes(Replay([]).table)
  {
  }

  lemma NothingOrdered(now: int)
    ensures AllOrdered(FdIndex(map[], map[]), now)
  {
  }

  lemma OpenedNext(trace: seq<Line>, cycle: int, fd: Fd, tid: Tid, name: string)
    ensures Replay(trace + [Line(cycle, Opened(fd, tid, name))]).table ==
      Replay(trace).table[Key(fd, tid) := Some(File(name))]
    ensures TimelineOf(Indexed(trace + [Line(cycle, Opened(fd, tid, name))]).dict, Key(fd, tid))
      == Put(TimelineOf(Indexed(trace).dict, Key(fd, tid)), cycle, Some(File(name)))
    ensures Indexed(trace + [Line(cycle, Opened(fd, tid, name))]).dict.Keys == Indexed(trace).dict.Keys + {Key(fd, tid)}
  {
    hide Put;
    var line, k := Line(cycle, Opened(fd, tid, name)), Key(fd, tid);
    assert (trace + [line])[..|trace|] == trace;
    ChangedAt(Indexed(trace).dict, map[k := Some(File(name))], cycle, k);
  }

  /** The hypothesis of ShowIsReplay is needed: when a cycle goes back, show stops at the later one and
      misses the earlier. */
  lemma OutOfOrderMisses(fd: Fd, tid: Tid)
    ensures var trace := [Line(5, Opened(fd, tid, "a"))] + [Line(3, Opened(fd, tid, "b"))];
      !Nondecreasing(trace)
      && Key(fd, tid) !in Shown(Indexed(trace).dict, 4)
      && Key(fd, tid) in OpenOnes(Replay(Before(trace, 4)).table)
  {
    hide Indexed, Replay, Changes;
    var k, one := Key(fd, tid), [] + [Line(5, Opened(fd, tid, "a"))];
    var trace := one + [Line(3, Opened(fd, tid, "b"))];
    assert trace[0].cycle > trace[1].cycle && trace[|trace| - 1].cycle < 4;
    OpenedNext([], 5, fd, tid, "a");
    OpenedNext(one, 3, fd, tid, "b");
    NothingYet();
    assert TimelineOf(Indexed(trace).dict, k)[0].cycle == 5;
    assert one == [Line(5, Opened(fd, tid, "a"))];
  }

  lemma NothingYet()
    ensures Indexed([]).dict == map[]
  {
  }
}
