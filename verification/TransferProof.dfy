/** What every run of the transfer protocol keeps: a global invariant that ties both parties'
    counters to the contents of both queues, and what follows from it. */
module TransferProof {
  import opened Text
  import opened Transfer

  const ACK: Datagram := Encode("ack")
  const AC1: Datagram := Encode("ac1")
  const END: Datagram := Encode(MARKER)

  // ---- The invariant ----

  /** Number of acknowledgments due once count datagrams have passed. */
  function Block(count: nat): nat {
    count / 20
  }

  /** Everything before action k was read as meant and had no chunk that looks like an end marker. */
  ghost predicate GoodUpto(prog: seq<Action>, k: nat) {
    forall i :: 0 <= i < k && i < |prog| ==> Fits(prog[i]) && MarkerFree(prog[i])
  }

  /** Index of the first chunk, from c on, that looks like the end marker; the number of chunks if there is none. */
  ghost function FirstMarked(data: seq<byte>, c: nat): (r: nat)
    ensures c <= Chunks(data) ==> c <= r <= Chunks(data)
    decreases Chunks(data) - c
  {
    if c >= Chunks(data) || IsMarked(ChunkAt(data, c)) then c else FirstMarked(data, c + 1)
  }

  lemma {:induction false} BeforeFirstMarked(data: seq<byte>, c: nat, i: nat)
    requires c <= i < FirstMarked(data, c) && c <= Chunks(data)
    ensures !IsMarked(ChunkAt(data, i))
    decreases Chunks(data) - c
  {
    if c < i {
      BeforeFirstMarked(data, c + 1, i);
    }
  }

  lemma {:induction false} AtFirstMarked(data: seq<byte>, c: nat)
    requires c <= Chunks(data)
    ensures FirstMarked(data, c) < Chunks(data) ==> IsMarked(ChunkAt(data, FirstMarked(data, c)))
    decreases Chunks(data) - c
  {
    if c < Chunks(data) && !IsMarked(ChunkAt(data, c)) {
      AtFirstMarked(data, c + 1);
    }
  }

  /** Number of leading chunks that the server takes for data. */
  ghost function Plain(data: seq<byte>): (r: nat)
    ensures r <= Chunks(data)
  {
    FirstMarked(data, 0)
  }

  lemma PlainChunk(data: seq<byte>, c: nat)
    requires c <= Plain(data) && c < Chunks(data)
    ensures c < Plain(data) <==> !IsMarked(ChunkAt(data, c))
  {
    if c < Plain(data) {
      BeforeFirstMarked(data, 0, c);
    } else {
      AtFirstMarked(data, 0);
    }
  }

  lemma MarkerFreeIffPlain(a: Action)
    requires a.SendFile?
    ensures MarkerFree(a) <==> Plain(a.data) == Chunks(a.data)
  {
    AtFirstMarked(a.data, 0);
    if Plain(a.data) == Chunks(a.data) {
      forall c | 0 <= c < Chunks(a.data) ensures !IsMarked(ChunkAt(a.data, c)) {
        BeforeFirstMarked(a.data, 0, c);
      }
    }
  }

  /** The sender's counters while it sends a file. */
  ghost predicate Counters(a: Action, s: Sender) {
    a.SendFile? && Fits(a) && s.useAck && s.pcount <= Chunks(a.data) &&
    (if s.pcount < Chunks(a.data)
     then s.ptr == Offset(s.pcount) && s.remain == |a.data| - Offset(s.pcount) && s.remain > 0
     else s.remain == 0)
  }

  /** The server has taken c chunks of the file off the queue, and written them. */
  ghost predicate Taken(a: Action, server: Server) {
    a.SendFile? && server.Receiving? && server.count <= Plain(a.data)
    && server == Receiving(Normal(a.name), Decimal(|a.data|), Upto(a.data, server.count), server.count)
  }

  ghost predicate Waiting(a: Action, server: Server) {
    server == AwaitGreetingAck(Header(a)) && Fits(a)
  }

  /** The server has finished everything before the sender's action. */
  ghost predicate InStep(prog: seq<Action>, n: Net)
    requires n.sender.idx <= |prog|
  {
    n.server == AwaitHeader && n.effects == Expected(prog, n.sender.idx)
  }

  /** doCommand has returned, but the server has yet to take the acknowledgment and run the command. */
  ghost predicate Behind(prog: seq<Action>, n: Net)
    requires n.sender.idx <= |prog|
  {
    n.sender.idx > 0 && prog[n.sender.idx - 1].DoCommand? && Waiting(prog[n.sender.idx - 1], n.server)
    && n.effects == Expected(prog, n.sender.idx - 1)
  }

  ghost predicate InvGreeting(prog: seq<Action>, n: Net)
    requires n.sender.idx < |prog|
  {
    var a := prog[n.sender.idx];
    var header := Encode(Header(a));
    || (InStep(prog, n) && n.toServer == [header] && n.toSender == [])
    || (Behind(prog, n) && n.toServer == [ACK, header] && n.toSender == [])
    || (Fits(a) && n.effects == Expected(prog, n.sender.idx) && n.toServer == []
        && ((n.server == Greeting(Header(a)) && n.toSender == []) || (Waiting(a, n.server) && n.toSender == [AC1])))
  }

  ghost predicate InvData(prog: seq<Action>, n: Net)
    requires n.sender.idx < |prog|
  {
    var a, p := prog[n.sender.idx], n.sender.pcount;
    && Counters(a, n.sender) && n.toSender == [] && n.effects == Expected(prog, n.sender.idx)
    && (|| (Waiting(a, n.server) && p < 20 && n.toServer == [ACK] + Window(a.data, 0, p))
        || (Taken(a, n.server) && n.server.count <= p && Block(n.server.count) == Block(p)
            && n.toServer == Window(a.data, n.server.count, p)))
  }

  ghost predicate InvAck(prog: seq<Action>, n: Net)
    requires n.sender.idx < |prog|
  {
    var a, p := prog[n.sender.idx], n.sender.pcount;
    && Counters(a, n.sender) && p > 0 && AckDue(p) && n.effects == Expected(prog, n.sender.idx)
    && (|| (Waiting(a, n.server) && p == 20 && n.toServer == [ACK] + Window(a.data, 0, p) && n.toSender == [])
        || (Taken(a, n.server) && n.server.count < p && Block(n.server.count) + 1 == Block(p)
            && n.toServer == Window(a.data, n.server.count, p) && n.toSender == [])
        || (n.server == AckBlock(Normal(a.name), Decimal(|a.data|), Upto(a.data, p - 1), p, ChunkAt(a.data, p - 1))
            && p <= Plain(a.data) && n.toServer == [] && n.toSender == [])
        || (Taken(a, n.server) && n.server.count == p && n.toServer == [] && n.toSender == [ACK]))
  }

  ghost predicate InvFinal(prog: seq<Action>, n: Net)
    requires n.sender.idx < |prog|
  {
    var a, p := prog[n.sender.idx], n.sender.pcount;
    && Counters(a, n.sender) && p == Chunks(a.data)
    && (|| (n.effects == Expected(prog, n.sender.idx) && n.toSender == []
            && (|| (Waiting(a, n.server) && p < 20 && n.toServer == [ACK] + Window(a.data, 0, p) + [END])
                || (Taken(a, n.server) && Block(n.server.count) == Block(p)
                    && n.toServer == Window(a.data, n.server.count, p) + [END])))
        || (n.effects == Expected(prog, n.sender.idx + 1) && n.toServer == [] && MarkerFree(a) && Fits(a)
            && ((n.server == AckDone && n.toSender == []) || (n.server == AwaitHeader && n.toSender == [ACK]))))
  }

  ghost predicate Inv(prog: seq<Action>, n: Net) {
    n.sender.idx <= |prog| && GoodUpto(prog, n.sender.idx) &&
    if n.sender.pc == SendHeader then
      n.toSender == [] && ((InStep(prog, n) && n.toServer == []) || (Behind(prog, n) && n.toServer == [ACK]))
    else
      n.sender.idx < |prog| &&
      match n.sender.pc
      case AwaitGreeting => InvGreeting(prog, n)
      case SendGreeting =>
        Waiting(prog[n.sender.idx], n.server) && n.effects == Expected(prog, n.sender.idx)
        && n.toServer == [] && n.toSender == [] && n.sender.useAck
      case SendData => InvData(prog, n)
      case AwaitAck => InvAck(prog, n)
      case AwaitFinal => InvFinal(prog, n)
  }

  // ---- The two ways in which a run can leave it ----

  /** The server closed a file early, and its size check said so. */
  ghost predicate CutShort(prog: seq<Action>, effects: seq<Effect>) {
    effects != [] && |effects| <= |prog| &&
    var k := |effects| - 1;
    prog[k].SendFile? && effects[k].Stored? && !effects[k].sizeVerified && |effects[k].content| < |prog[k].data|
  }

  /** The server is about to read a command header that its buffer truncates. */
  ghost predicate AtMisfit(prog: seq<Action>, n: Net) {
    n.sender.idx < |prog| && n.sender.pc == AwaitGreeting && n.server == AwaitHeader && !Fits(prog[n.sender.idx])
    && n.toServer == [Encode(Header(prog[n.sender.idx]))] && n.toSender == []
    && n.effects == Expected(prog, n.sender.idx)
  }

  /** The server is about to take a chunk that looks like the end marker. */
  ghost predicate AtEarlyMarker(prog: seq<Action>, n: Net) {
    n.sender.idx < |prog| && n.server.Receiving? && n.toServer != [] && n.server.count < n.sender.pcount
    && prog[n.sender.idx].SendFile? && n.server.count == Plain(prog[n.sender.idx].data)
  }

  lemma ExpectedNext(prog: seq<Action>, k: nat)
    requires k < |prog|
    ensures Expected(prog, k + 1) == Expected(prog, k) + [Intended(prog[k])]
  {
  }

  lemma SenderKeepsInv(prog: seq<Action>, n: Net)
    requires Inv(prog, n)
    ensures Inv(prog, SenderStep(prog, n))
  {
    hide Encode, Decode, Decimal, Words;
    if n.sender.idx < |prog| {
      match n.sender.pc
      case SendHeader => SendHeaderKeepsInv(prog, n);
      case AwaitGreeting => TakeGreetingKeepsInv(prog, n);
      case SendGreeting => SendGreetingKeepsInv(prog, n);
      case SendData => SendDataKeepsInv(prog, n);
      case AwaitAck => TakeAckKeepsInv(prog, n);
      case AwaitFinal => TakeFinalKeepsInv(prog, n);
    }
  }

  lemma SendHeaderKeepsInv(prog: seq<Action>, n: Net)
    requires Inv(prog, n) && n.sender.pc == SendHeader && n.sender.idx < |prog|
    ensures Inv(prog, SenderStep(prog, n))
  {
    hide Encode, Decode, Decimal, Words;
    var m := SenderStep(prog, n);
    var header := Encode(Header(prog[n.sender.idx]));
    if InStep(prog, n) && n.toServer == [] {
      assert InStep(prog, m) && m.toServer == [header];
    } else {
      assert Behind(prog, m) && m.toServer == [ACK, header];
    }
  }

  lemma TakeGreetingKeepsInv(prog: seq<Action>, n: Net)
    requires Inv(prog, n) && n.sender.pc == AwaitGreeting
    ensures Inv(prog, SenderStep(prog, n))
  {
    if n.toSender != [] {
      ShortWords();
      assert n.toSender == [AC1];
      assert Slice(AC1, 0, 3) == AC1;
    }
  }

  lemma TakeAckKeepsInv(prog: seq<Action>, n: Net)
    requires Inv(prog, n) && n.sender.pc == AwaitAck
    ensures Inv(prog, SenderStep(prog, n))
  {
    hide Encode, Decode, Decimal, Words;
    if n.toSender != [] {
      var a, p := prog[n.sender.idx], n.sender.pcount;
      assert Window(a.data, p, p) == [];
    }
  }

  lemma TakeFinalKeepsInv(prog: seq<Action>, n: Net)
    requires Inv(prog, n) && n.sender.pc == AwaitFinal
    ensures Inv(prog, SenderStep(prog, n))
  {
    hide Encode, Decode, Decimal, Words, Block, AckDue, Slice, Window, Normal;
    if n.toSender != [] {
      assert InStep(prog, SenderStep(prog, n));
    }
  }

  lemma SendGreetingKeepsInv(prog: seq<Action>, n: Net)
    requires Inv(prog, n) && n.sender.pc == SendGreeting
    ensures Inv(prog, SenderStep(prog, n))
  {
    hide Encode, Decode, Decimal, Words;
    var a := prog[n.sender.idx];
    var m := SenderStep(prog, n);
    if a.SendFile? {
      assert Window(a.data, 0, 0) == [];
      assert m.toServer == [ACK] + Window(a.data, 0, 0);
    }
  }

  lemma SendDataKeepsInv(prog: seq<Action>, n: Net)
    requires Inv(prog, n) && n.sender.pc == SendData
    ensures Inv(prog, SenderStep(prog, n))
  {
    hide Encode, Decode, Decimal, Words, Slice, Window;
    var a, p := prog[n.sender.idx], n.sender.pcount;
    if n.sender.remain > 0 {
      NextChunk(a, n.sender);
      SentChunkInv(prog, n, SenderStep(prog, n));
    } else {
      assert InvFinal(prog, SenderStep(prog, n));
    }
  }

  /** m is n after the sender has sent the next chunk. */
  lemma SentChunkInv(prog: seq<Action>, n: Net, m: Net)
    requires n.sender.idx < |prog| && GoodUpto(prog, n.sender.idx) && InvData(prog, n)
      && n.sender.pcount < Chunks(prog[n.sender.idx].data)
    requires Counters(prog[n.sender.idx], m.sender) && m.sender.pcount == n.sender.pcount + 1
      && m.sender.idx == n.sender.idx
    requires m.sender.pc == if AckDue(m.sender.pcount) then AwaitAck else SendData
    requires m == n.(sender := m.sender, toServer := n.toServer + [ChunkAt(prog[n.sender.idx].data, n.sender.pcount)])
    ensures Inv(prog, m)
  {
    hide Encode, Decode, Decimal, Words, Block, AckDue, Window, Slice;
    var a, p := prog[n.sender.idx], n.sender.pcount;
    NextBlock(p);
    if n.server.Receiving? {
      WindowGrows(a.data, n.server.count, p);
    } else {
      WindowGrows(a.data, 0, p);
      assert [ACK] + Window(a.data, 0, p) + [ChunkAt(a.data, p)] == [ACK] + Window(a.data, 0, p + 1);
    }
    if AckDue(p + 1) {
      assert InvAck(prog, m);
    } else {
      assert InvData(prog, m);
    }
  }

  /** Counting one more datagram completes a block exactly when an acknowledgment is due. */
  lemma NextBlock(p: nat)
    ensures Block(p + 1) == Block(p) + (if AckDue(p + 1) then 1 else 0)
    ensures p < 20 ==> (AckDue(p + 1) <==> p + 1 == 20)
  {
  }

  lemma NextChunk(a: Action, s: Sender)
    requires Counters(a, s) && s.remain > 0
    ensures Slice(a.data, s.ptr, if s.remain >= CHUNK then s.ptr + CHUNK else s.ptr + s.remain) ==
      ChunkAt(a.data, s.pcount)
    ensures s.remain >= CHUNK ==> (s.pcount + 1 < Chunks(a.data) <==> s.remain > CHUNK)
    ensures s.remain < CHUNK ==> s.pcount + 1 == Chunks(a.data)
  {
    hide Encode, Decode, Decimal, Words;
  }

  lemma ServerKeepsInv(prog: seq<Action>, n: Net)
    requires Inv(prog, n) && ValidProgram(prog) && !AtEarlyMarker(prog, n) && !AtMisfit(prog, n)
    ensures Inv(prog, ServerStep(n))
  {
    hide Encode, Decode, Decimal, Words;
    match n.server
    case AwaitHeader => ReadHeaderKeepsInv(prog, n);
    case Greeting(_) =>
    case AwaitGreetingAck(_) => ReadGreetingAckKeepsInv(prog, n);
    case Receiving(_, _, _, count) =>
      if n.toServer != [] {
        if count == n.sender.pcount { FileEndKeepsInv(prog, n); } else { ReadChunkKeepsInv(prog, n); }
      }
    case AckBlock(_, _, _, _, _) => UptoGrows(prog[n.sender.idx].data, n.sender.pcount - 1);
    case AckDone =>
    case Crashed =>
  }

  lemma ReadHeaderKeepsInv(prog: seq<Action>, n: Net)
    requires Inv(prog, n) && n.server == AwaitHeader && !AtMisfit(prog, n)
    ensures Inv(prog, ServerStep(n))
  {
    if n.toServer != [] && n.sender.idx < |prog| && Fits(prog[n.sender.idx]) {
      HeaderReceived(prog[n.sender.idx]);
    }
  }

  lemma ReadGreetingAckKeepsInv(prog: seq<Action>, n: Net)
    requires Inv(prog, n) && n.server.AwaitGreetingAck?
    ensures Inv(prog, ServerStep(n))
  {
    hide Encode, Decode, Decimal, Words;
    if n.toServer != [] {
      if n.sender.pc == SendHeader || n.sender.pc == AwaitGreeting {
        RunCommandKeepsInv(prog, n);
      } else {
        OpenFileKeepsInv(prog, n);
      }
    }
  }

  lemma RunCommandKeepsInv(prog: seq<Action>, n: Net)
    requires Inv(prog, n) && n.server.AwaitGreetingAck? && n.toServer != []
    requires n.sender.pc == SendHeader || n.sender.pc == AwaitGreeting
    ensures Inv(prog, ServerStep(n))
  {
    hide Encode, Decode, Decimal, Words;
    assert Behind(prog, n);
    CommandRuns(prog[n.sender.idx - 1], n);
    ExpectedNext(prog, n.sender.idx - 1);
    AfterCommandInv(prog, n, ServerStep(n));
  }

  lemma CommandRuns(a: Action, n: Net)
    requires a.DoCommand? && n.server == AwaitGreetingAck(Header(a)) && n.toServer != []
    ensures ServerStep(n) ==
      n.(server := AwaitHeader, toServer := n.toServer[1..], effects := n.effects + [Intended(a)])
  {
    HeaderParts(a);
  }

  lemma AfterCommandInv(prog: seq<Action>, n: Net, m: Net)
    requires n.sender.idx <= |prog| && GoodUpto(prog, n.sender.idx) && Behind(prog, n)
    requires n.toServer != [] && n.toSender == []
    requires m == n.(server := AwaitHeader, toServer := n.toServer[1..], effects := Expected(prog, n.sender.idx))
    requires n.sender.pc == SendHeader ==> n.toServer == [ACK]
    requires n.sender.pc != SendHeader ==> n.sender.pc == AwaitGreeting && n.sender.idx < |prog|
    requires n.sender.pc != SendHeader ==> n.toServer == [ACK, Encode(Header(prog[n.sender.idx]))]
    ensures Inv(prog, m)
  {
    hide Encode, Decode, Decimal, Words;
    assert InStep(prog, m);
  }

  lemma OpenFileKeepsInv(prog: seq<Action>, n: Net)
    requires Inv(prog, n) && n.server.AwaitGreetingAck? && n.toServer != []
    requires n.sender.pc != SendHeader && n.sender.pc != AwaitGreeting
    ensures Inv(prog, ServerStep(n))
  {
    hide Encode, Decode, Decimal, Words;
    var a, p := prog[n.sender.idx], n.sender.pcount;
    var m := ServerStep(n);
    HeaderParts(a);
    var rest := Remaining(a, n.sender.pc, 0, p);
    assert n.toServer == [ACK] + rest && m.toServer == rest;
    assert Upto(a.data, 0) == [];
    assert Taken(a, m.server);
  }

  /** What the sender has sent of a file and the server has not taken. */
  ghost function Remaining(a: Action, pc: SenderPc, c: nat, p: nat): seq<Datagram>
    requires a.SendFile? && c <= p
  {
    if pc == AwaitFinal then Window(a.data, c, p) + [END] else Window(a.data, c, p)
  }

  lemma TakeChunk(prog: seq<Action>, n: Net)
    requires Inv(prog, n) && n.server.Receiving? && n.toServer != [] && n.server.count < n.sender.pcount
    ensures var a, p, c := prog[n.sender.idx], n.sender.pcount, n.server.count;
      && c < Chunks(a.data) && Slice(n.toServer[0], 0, RECV_SIZE) == ChunkAt(a.data, c)
      && n.toServer[1..] == Remaining(a, n.sender.pc, c + 1, p)
  {
    hide Encode, Decode, Decimal, Words;
    var a, p, c := prog[n.sender.idx], n.sender.pcount, n.server.count;
    WindowShrinks(a.data, c, p);
    UptoGrows(a.data, c);
    assert n.toServer[0] == ChunkAt(a.data, c);
  }

  lemma ReadChunkKeepsInv(prog: seq<Action>, n: Net)
    requires Inv(prog, n) && n.server.Receiving? && n.toServer != [] && n.server.count < n.sender.pcount
    requires !AtEarlyMarker(prog, n)
    ensures Inv(prog, ServerStep(n))
  {
    hide Encode, Decode, Decimal, Words;
    TakeChunk(prog, n);
    PlainChunk(prog[n.sender.idx].data, n.server.count);
    ChunkTaken(prog[n.sender.idx], n);
    AfterChunkInv(prog, n, ServerStep(n));
  }

  /** m is n after the server has taken an ordinary chunk. */
  ghost predicate ChunkStep(prog: seq<Action>, n: Net, m: Net) {
    n.sender.idx < |prog| && n.server.Receiving? && n.server.count < n.sender.pcount && prog[n.sender.idx].SendFile? &&
    var a, p, c := prog[n.sender.idx], n.sender.pcount, n.server.count;
    && c < Plain(a.data)
    && m == n.(server := m.server,
               toServer := Remaining(a, n.sender.pc, c + 1, p))
    && if AckDue(c + 1)
       then m.server == AckBlock(Normal(a.name), Decimal(|a.data|), Upto(a.data, c), c + 1, ChunkAt(a.data, c))
       else Taken(a, m.server) && m.server.count == c + 1
  }

  lemma AfterChunkInv(prog: seq<Action>, n: Net, m: Net)
    requires Inv(prog, n) && ChunkStep(prog, n, m)
    ensures Inv(prog, m)
  {
    hide Encode, Decode, Decimal, Words;
    match n.sender.pc
    case SendData => AfterChunkData(prog, n, m);
    case AwaitAck => AfterChunkAck(prog, n, m);
    case AwaitFinal => AfterChunkFinal(prog, n, m);
    case _ =>
  }

  lemma AfterChunkData(prog: seq<Action>, n: Net, m: Net)
    requires ChunkStep(prog, n, m) && InvData(prog, n) && n.sender.pc == SendData
    ensures InvData(prog, m)
  {
    hide Encode, Decode, Decimal, Words, Block, AckDue, Slice, Normal, Window, Counters;
    var p, c := n.sender.pcount, n.server.count;
    if AckDue(c + 1) {
      SameBlock(c, p);
    } else {
      NextBlock(c);
    }
  }

  lemma AfterChunkAck(prog: seq<Action>, n: Net, m: Net)
    requires ChunkStep(prog, n, m) && InvAck(prog, n) && n.sender.pc == AwaitAck
    ensures InvAck(prog, m)
  {
    hide Encode, Decode, Decimal, Words, Block, AckDue, Slice, Normal, Counters;
    var a, p, c := prog[n.sender.idx], n.sender.pcount, n.server.count;
    if AckDue(c + 1) {
      BlockBoundary(c, p);
      assert Window(a.data, c + 1, p) == [];
    } else {
      NextBlock(c);
    }
  }

  lemma AfterChunkFinal(prog: seq<Action>, n: Net, m: Net)
    requires ChunkStep(prog, n, m) && InvFinal(prog, n) && n.sender.pc == AwaitFinal
    ensures InvFinal(prog, m)
  {
    hide Encode, Decode, Decimal, Words, Block, AckDue, Slice, Normal, Window, Counters;
    var p, c := n.sender.pcount, n.server.count;
    if AckDue(c + 1) {
      SameBlock(c, p);
    } else {
      NextBlock(c);
    }
  }

  lemma SameBlock(c: nat, p: nat)
    requires c < p && AckDue(c + 1)
    ensures Block(c) != Block(p)
  {
  }

  lemma BlockBoundary(c: nat, p: nat)
    requires c < p && AckDue(c + 1)
    requires Block(c) == Block(p) || (AckDue(p) && Block(c) + 1 == Block(p))
    ensures p == c + 1
  {
  }

  /** What the server does with an ordinary chunk. */
  lemma ChunkTaken(a: Action, n: Net)
    requires Taken(a, n.server) && n.toServer != [] && n.server.count < Plain(a.data)
    requires Slice(n.toServer[0], 0, RECV_SIZE) == ChunkAt(a.data, n.server.count)
    ensures var c := n.server.count; var m := ServerStep(n);
      && m == n.(server := m.server, toServer := n.toServer[1..])
      && if AckDue(c + 1)
         then m.server == AckBlock(Normal(a.name), Decimal(|a.data|), Upto(a.data, c), c + 1, ChunkAt(a.data, c))
         else Taken(a, m.server) && m.server.count == c + 1
  {
    hide Encode, Decode, Decimal, Words;
    PlainChunk(a.data, n.server.count);
    UptoGrows(a.data, n.server.count);
  }

  lemma FileEndKeepsInv(prog: seq<Action>, n: Net)
    requires Inv(prog, n) && n.server.Receiving? && n.toServer != []
    requires n.server.count == n.sender.pcount
    ensures Inv(prog, ServerStep(n))
  {
    hide Encode, Decode, Decimal, Words;
    var a, p := prog[n.sender.idx], n.sender.pcount;
    assert Window(a.data, p, p) == [];
    assert n.toServer == [END];
    EndCloses(a, n);
    MarkerFreeIffPlain(a);
    ExpectedNext(prog, n.sender.idx);
  }

  lemma EndCloses(a: Action, n: Net)
    requires Taken(a, n.server) && n.server.count == Chunks(a.data) && n.toServer == [END]
    ensures ServerStep(n) == n.(server := AckDone, toServer := [], effects := n.effects + [Intended(a)])
  {
    ShortWords();
    UptoAll(a.data);
    assert ButLast(END, 6) == [];
    assert n.server.written + ButLast(END, 6) == a.data;
  }

  /** The server closes the file short of the data, and reports that the sizes differ. */
  lemma EarlyMarkerCutsShort(prog: seq<Action>, n: Net)
    requires Inv(prog, n) && AtEarlyMarker(prog, n)
    ensures CutShort(prog, ServerStep(n).effects)
  {
    hide Encode, Decode, Decimal, Words;
    TakeChunk(prog, n);
    PlainChunk(prog[n.sender.idx].data, n.server.count);
    MarkedChunkEnds(prog[n.sender.idx], n);
  }

  lemma MarkedChunkEnds(a: Action, n: Net)
    requires Taken(a, n.server) && n.toServer != [] && n.server.count < Chunks(a.data)
    requires Slice(n.toServer[0], 0, RECV_SIZE) == ChunkAt(a.data, n.server.count)
    requires IsMarked(ChunkAt(a.data, n.server.count))
    ensures exists content ::
      |content| < |a.data| && ServerStep(n).effects == n.effects + [Stored(Normal(a.name), content, false)]
  {
    hide Encode, Decode, Decimal, Words;
    var c := n.server.count;
    UptoGrows(a.data, c);
    var content := Upto(a.data, c) + ButLast(ChunkAt(a.data, c), 6);
    assert |content| < |Upto(a.data, c + 1)| <= |a.data|;
    if Decimal(|a.data|) == Decimal(|content|) {
      DecimalInjective(|a.data|, |content|);
    }
    assert ServerStep(n).effects == n.effects + [Stored(Normal(a.name), content, false)];
  }

  // ---- Safety of all runs ----

  ghost predicate Sound(prog: seq<Action>) {
    CommandsFit(prog) && FilesMarkerFree(prog)
  }

  lemma InvAtStart(prog: seq<Action>)
    ensures Inv(prog, Start())
  {
    assert Expected(prog, 0) == [];
  }

  lemma StepKeepsInv(prog: seq<Action>, n: Net, p: Party)
    requires ValidProgram(prog) && Sound(prog) && Inv(prog, n)
    ensures Inv(prog, Step(prog, n, p))
  {
    hide Encode, Decode, Decimal, Words;
    if p == SenderTurn {
      SenderKeepsInv(prog, n);
    } else {
      if n.sender.idx < |prog| {
        assert MarkerFree(prog[n.sender.idx]);
        if prog[n.sender.idx].SendFile? {
          MarkerFreeIffPlain(prog[n.sender.idx]);
          FileHeaderFits(prog[n.sender.idx]);
        }
      }
      ServerKeepsInv(prog, n);
    }
  }

  lemma {:induction false} RunKeepsInv(prog: seq<Action>, schedule: seq<Party>)
    requires ValidProgram(prog) && Sound(prog)
    ensures Inv(prog, Exec(prog, schedule))
  {
    hide Encode, Decode, Decimal, Words;
    if schedule == [] {
      InvAtStart(prog);
    } else {
      RunKeepsInv(prog, schedule[..|schedule| - 1]);
      StepKeepsInv(prog, Exec(prog, schedule[..|schedule| - 1]), schedule[|schedule| - 1]);
    }
  }

  // ---- In-flight bounds ----

  /** At most 21 datagrams are on their way to the server and at most one on its way back. */
  lemma InFlightBound(prog: seq<Action>, schedule: seq<Party>)
    requires ValidProgram(prog) && Sound(prog)
    ensures |Exec(prog, schedule).toServer| <= 21
    ensures |Exec(prog, schedule).toSender| <= 1
  {
    hide Encode, Decode, Decimal, Words;
    RunKeepsInv(prog, schedule);
  }

  /** Between two files nothing is in flight and everything sent so far is in place. */
  lemma QuietBetweenFiles(prog: seq<Action>, schedule: seq<Party>)
    requires ValidProgram(prog) && Sound(prog)
    requires var s := Exec(prog, schedule).sender;
      s.pc == SendHeader && 0 < s.idx <= |prog| && prog[s.idx - 1].SendFile?
    ensures var n := Exec(prog, schedule);
      n.toServer == [] && n.toSender == [] && n.effects == Expected(prog, n.sender.idx)
  {
    hide Encode, Decode, Decimal, Words;
    RunKeepsInv(prog, schedule);
  }

  /** The effects are at every moment exactly the intended ones of the actions the server has finished. */
  lemma EffectsAsIntended(prog: seq<Action>, schedule: seq<Party>)
    requires ValidProgram(prog) && Sound(prog)
    ensures var e := Exec(prog, schedule).effects; |e| <= |prog| && e == Expected(prog, |e|)
  {
    hide Encode, Decode, Decimal, Words;
    RunKeepsInv(prog, schedule);
  }

  // ---- Deadlock freedom ----

  predicate ToReply(server: Server) {
    server.Greeting? || server.AckBlock? || server.AckDone?
  }

  predicate ToSend(prog: seq<Action>, s: Sender) {
    s.idx < |prog| && (s.pc == SendHeader || s.pc == SendGreeting || (s.pc == SendData && prog[s.idx].SendFile?))
  }

  /** With nothing in flight and no reply due, the sender is the one to act. */
  lemma IdleSenderActs(prog: seq<Action>, n: Net)
    requires Inv(prog, n) && !Final(prog, n)
    requires n.toServer == [] && n.toSender == [] && !ToReply(n.server)
    ensures ToSend(prog, n.sender)
  {
    hide Encode, Decode, Decimal, Words, Offset, Chunks, Block, AckDue;
  }

  lemma SendingMoves(prog: seq<Action>, n: Net)
    requires ToSend(prog, n.sender)
    ensures |SenderStep(prog, n).toServer| > |n.toServer|
  {
    hide Encode, Decode, Decimal, Words, Offset, Chunks;
  }

  lemma InvWaitsForReply(prog: seq<Action>, n: Net)
    requires Inv(prog, n) && n.toSender != []
    ensures n.sender.idx < |prog|
      && (n.sender.pc == AwaitGreeting || n.sender.pc == AwaitAck || n.sender.pc == AwaitFinal)
    ensures !n.server.Crashed?
  {
    hide Encode, Decode, Decimal, Words, Offset, Chunks, Window, Block, AckDue;
  }

  lemma ServerNeverCrashes(prog: seq<Action>, n: Net)
    requires Inv(prog, n)
    ensures !n.server.Crashed?
  {
    hide Encode, Decode, Decimal, Words, Offset, Chunks, Window, Block, AckDue;
  }

  lemma ServerMoves(n: Net)
    requires !n.server.Crashed? && (ToReply(n.server) || n.toServer != [])
    ensures ServerStep(n) != n
  {
    hide Encode, Decode, Decimal, Words;
    if ToReply(n.server) {
      assert |ServerStep(n).toSender| > |n.toSender|;
    } else {
      assert |ServerStep(n).toServer| < |n.toServer|;
    }
  }

  /** Until everything is delivered, some party can move. */
  lemma UnfinishedMoves(prog: seq<Action>, n: Net)
    requires Inv(prog, n) && !Final(prog, n)
    ensures !Stuck(prog, n)
  {
    hide Encode, Decode, Decimal, Words, Inv, Final;
    ServerNeverCrashes(prog, n);
    if ToReply(n.server) || n.toServer != [] {
      ServerMoves(n);
    } else if n.toSender != [] {
      InvWaitsForReply(prog, n);
      assert |SenderStep(prog, n).toSender| < |n.toSender|;
    } else {
      IdleSenderActs(prog, n);
      SendingMoves(prog, n);
    }
  }

  /** No run ever deadlocks. */
  lemma NoDeadlock(prog: seq<Action>, schedule: seq<Party>)
    requires ValidProgram(prog) && Sound(prog)
    ensures Final(prog, Exec(prog, schedule)) || !Stuck(prog, Exec(prog, schedule))
  {
    hide Encode, Decode, Decimal, Words, Inv, Final, Stuck;
    RunKeepsInv(prog, schedule);
    if !Final(prog, Exec(prog, schedule)) {
      UnfinishedMoves(prog, Exec(prog, schedule));
    }
  }

  // ---- Termination ----

  function SendsOf(a: Action): nat {
    match a
    case SendFile(_, data) => 3 + Chunks(data)
    case DoCommand(_) => 2
  }

  function SendsFrom(prog: seq<Action>, k: nat): nat
    decreases |prog| - k
  {
    if k >= |prog| then 0 else SendsOf(prog[k]) + SendsFrom(prog, k + 1)
  }

  function ChunksIn(remain: nat): nat {
    (remain + 1023) / 1024
  }

  /** Datagrams the sender has yet to send. */
  function SendsLeft(prog: seq<Action>, s: Sender): nat {
    if s.idx >= |prog| then 0
    else
      match s.pc
      case SendHeader => SendsFrom(prog, s.idx)
      case AwaitGreeting => SendsOf(prog[s.idx]) - 1 + SendsFrom(prog, s.idx + 1)
      case SendGreeting => SendsOf(prog[s.idx]) - 1 + SendsFrom(prog, s.idx + 1)
      case SendData => ChunksIn(s.remain) + 1 + SendsFrom(prog, s.idx + 1)
      case AwaitAck => ChunksIn(s.remain) + 1 + SendsFrom(prog, s.idx + 1)
      case AwaitFinal => SendsFrom(prog, s.idx + 1)
  }

  function Potential(prog: seq<Action>, n: Net): nat {
    4 * SendsLeft(prog, n.sender) + 3 * |n.toServer| + |n.toSender|
    + (if n.server.Greeting? || n.server.AckBlock? || n.server.AckDone? then 2 else 0)
  }

  lemma ChunksInNext(remain: nat)
    requires remain > 0
    ensures ChunksIn(remain) == 1 + ChunksIn(if remain >= 1024 then remain - 1024 else 0)
  {
  }

  /** Whatever is transferred, marker or not, every step that changes anything lowers the potential:
      a run has at most as many effective steps as the potential it starts with. */
  lemma StepLowersPotential(prog: seq<Action>, n: Net, p: Party)
    requires Step(prog, n, p) != n
    ensures Potential(prog, Step(prog, n, p)) < Potential(prog, n)
  {
    hide SenderStep, ServerStep, Potential;
    if p == SenderTurn {
      SenderLowersPotential(prog, n);
    } else {
      ServerLowersPotential(prog, n);
    }
  }

  lemma ServerLowersPotential(prog: seq<Action>, n: Net)
    requires ServerStep(n) != n
    ensures Potential(prog, ServerStep(n)) < Potential(prog, n)
  {
    hide Encode, Decode, Decimal, SendsLeft, Understand, Words, IsMarked, Slice, ButLast, AckDue;
  }

  lemma SenderLowersPotential(prog: seq<Action>, n: Net)
    requires SenderStep(prog, n) != n
    ensures Potential(prog, SenderStep(prog, n)) < Potential(prog, n)
  {
    hide Encode, Decode, Decimal, Words;
    var s, m := n.sender, SenderStep(prog, n);
    if s.pc == SendData && s.remain > 0 {
      ChunksInNext(s.remain);
    }
    assert SendsFrom(prog, s.idx) == SendsOf(prog[s.idx]) + SendsFrom(prog, s.idx + 1);
  }

  lemma StepAddsEffects(prog: seq<Action>, n: Net, p: Party)
    ensures n.effects <= Step(prog, n, p).effects
  {
    hide Encode, Decode, Decimal, Words;
  }

  /** Effects are only ever added. */
  lemma {:induction false} EffectsGrow(prog: seq<Action>, schedule: seq<Party>, more: seq<Party>)
    ensures Exec(prog, schedule).effects <= Exec(prog, schedule + more).effects
  {
    hide SenderStep, ServerStep;
    if more == [] {
      assert schedule + more == schedule;
    } else {
      var butLast := more[..|more| - 1];
      EffectsGrow(prog, schedule, butLast);
      assert schedule + more == schedule + butLast + [more[|more| - 1]];
      ExecAppend(prog, schedule + butLast, more[|more| - 1]);
      StepAddsEffects(prog, Exec(prog, schedule + butLast), more[|more| - 1]);
    }
  }

  /** Every run can be continued until neither party can move. */
  lemma {:induction false} RunsToStuck(prog: seq<Action>, schedule: seq<Party>) returns (more: seq<Party>)
    ensures Stuck(prog, Exec(prog, schedule + more))
    decreases Potential(prog, Exec(prog, schedule))
  {
    hide SenderStep, ServerStep, Potential;
    var n := Exec(prog, schedule);
    if Stuck(prog, n) {
      more := [];
      assert schedule + more == schedule;
    } else {
      var p := if SenderStep(prog, n) != n then SenderTurn else ServerTurn;
      StepLowersPotential(prog, n, p);
      ExecAppend(prog, schedule, p);
      var rest := RunsToStuck(prog, schedule + [p]);
      more := [p] + rest;
      assert schedule + more == schedule + [p] + rest;
    }
  }
}
