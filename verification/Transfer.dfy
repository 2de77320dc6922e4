/** The UDP file transfer between drive-driver3.py (sender) and driver-server.py (server), as two
    state machines over two lossless FIFO datagram queues. Every send and every receive is one
    atomic step; a schedule says which party is to take the next step, and a party that is
    blocked or has finished stays put. */
module Transfer {
  import opened Collections
  import opened Text

  type Datagram = seq<byte>

  const MARKER := "=EOFX="
  const RECV_SIZE: nat := 1024
  const CHUNK: nat := 1024

  /** Both sides count datagrams and acknowledge every twentieth. */
  predicate AckDue(count: nat) {
    count % 20 == 0
  }

  /** One call of the driver: sendFiles on one file, or doCommand. */
  datatype Action = SendFile(name: string, data: seq<byte>) | DoCommand(command: string)

  /** What the server has done to the target: files written, commands run. */
  datatype Effect =
    | Stored(name: string, content: seq<byte>, sizeVerified: bool)
    | Ran(command: string)
    | Spawned(command: string)

  datatype SenderPc = SendHeader | AwaitGreeting | SendGreeting | SendData | AwaitAck | AwaitFinal

  datatype Sender = Sender(idx: nat, pc: SenderPc, useAck: bool, ptr: nat, remain: nat, pcount: nat)

  datatype Server =
    | AwaitHeader
    | Greeting(header: string)
    | AwaitGreetingAck(header: string)
    | Receiving(name: string, size: string, written: seq<byte>, count: nat)
    | AckBlock(name: string, size: string, written: seq<byte>, count: nat, pending: seq<byte>)
    | AckDone
    | Crashed

  datatype Net = Net(sender: Sender, server: Server, toServer: seq<Datagram>, toSender: seq<Datagram>,
    effects: seq<Effect>)

  datatype Party = SenderTurn | ServerTurn

  // ---- Sender ----

  function Header(a: Action): string {
    match a
    case SendFile(name, data) => "FILE: " + Decimal(|data|) + " " + name + " =EOFX="
    case DoCommand(command) => "RUN: " + command + " =EOFX="
  }

  function NextAction(s: Sender): Sender {
    s.(idx := s.idx + 1, pc := SendHeader)
  }

  function SenderStep(prog: seq<Action>, n: Net): Net {
    var s := n.sender;
    if s.idx >= |prog| then n
    else
      var a := prog[s.idx];
      match s.pc
      case SendHeader =>
        n.(sender := s.(pc := AwaitGreeting, useAck := true), toServer := n.toServer + [Encode(Header(a))])
      case AwaitGreeting =>
        if n.toSender == [] then n
        else
          var ack := Slice(n.toSender[0], 0, 3);
          n.(sender := s.(pc := SendGreeting, useAck := ack != Encode("ack")), toSender := n.toSender[1..])
      case SendGreeting =>
        var sent := n.(toServer := n.toServer + [Encode("ack")]);
        if a.DoCommand? then sent.(sender := NextAction(s))
        else sent.(sender := s.(pc := SendData, ptr := 0, remain := |a.data|, pcount := 0))
      case SendData =>
        if a.DoCommand? then n
        else if s.remain > 0 then
          var end := if s.remain >= CHUNK then s.ptr + CHUNK else s.ptr + s.remain;
          var chunk := Slice(a.data, s.ptr, end);
          var t := if s.remain >= CHUNK then s.(remain := s.remain - CHUNK, ptr := s.ptr + CHUNK) else s.(remain := 0);
          var pcount := s.pcount + 1;
          var pc := if s.useAck && AckDue(pcount) then AwaitAck else SendData;
          n.(sender := t.(pcount := pcount, pc := pc), toServer := n.toServer + [chunk])
        else
          n.(sender := s.(pc := AwaitFinal), toServer := n.toServer + [Encode(MARKER)])
      case AwaitAck =>
        if n.toSender == [] then n else n.(sender := s.(pc := SendData), toSender := n.toSender[1..])
      case AwaitFinal =>
        if n.toSender == [] then n else n.(sender := NextAction(s), toSender := n.toSender[1..])
  }

  // ---- Server ----

  /** A datagram that the server takes for an end marker: it decodes, and the text ends in it. */
  predicate IsMarked(d: Datagram) {
    Decode(d).Some? && EndsWith(Decode(d).value, MARKER)
  }

  datatype Request = File(size: string, name: string) | Run(command: string) | RunLong(command: string) | Unknown

  function Parse(header: string): Request {
    Understand(Words(header))
  }

  function Understand(parts: seq<string>): Request {
    if parts == [] then Unknown
    else
      var last := |parts| - 1;
      if parts[0] == "FILE:" then File(if last > 0 then parts[1] else "", Join(Slice(parts, 2, last)))
      else if parts[0] == "RUN:" then Run(Join(Slice(parts, 1, last)))
      else if parts[0] == "RUN_LONG:" then RunLong(Join(Slice(parts, 1, last)))
      else Unknown
  }

  function ServerStep(n: Net): Net {
    match n.server
    case AwaitHeader =>
      if n.toServer == [] then n
      else
        var f := Slice(n.toServer[0], 0, RECV_SIZE);
        var m := n.(toServer := n.toServer[1..]);
        if f == [] then m
        else if Decode(f).None? then m.(server := Crashed)
        else if IsMarked(f) then m.(server := Greeting(Decode(f).value))
        else m
    case Greeting(header) =>
      n.(server := AwaitGreetingAck(header), toSender := n.toSender + [Encode("ac1")])
    case AwaitGreetingAck(header) =>
      if n.toServer == [] then n
      else
        var m := n.(toServer := n.toServer[1..]);
        (match Parse(header)
         case File(size, name) => m.(server := Receiving(name, size, [], 0))
         case Run(command) => m.(server := AwaitHeader, effects := n.effects + [Ran(command)])
         case RunLong(command) => m.(server := AwaitHeader, effects := n.effects + [Spawned(command)])
         case Unknown => m.(server := AwaitHeader))
    case Receiving(name, size, written, count) =>
      if n.toServer == [] then n
      else
        var readData := Slice(n.toServer[0], 0, RECV_SIZE);
        var m := n.(toServer := n.toServer[1..]);
        if IsMarked(readData) then
          var content := written + ButLast(readData, 6);
          m.(server := AckDone, effects := n.effects + [Stored(name, content, size == Decimal(|content|))])
        else if AckDue(count + 1) then
          m.(server := AckBlock(name, size, written, count + 1, readData))
        else
          m.(server := Receiving(name, size, written + readData, count + 1))
    case AckBlock(name, size, written, count, pending) =>
      n.(server := Receiving(name, size, written + pending, count), toSender := n.toSender + [Encode("ack")])
    case AckDone =>
      n.(server := AwaitHeader, toSender := n.toSender + [Encode("ack")])
    case Crashed => n
  }

  // ---- Runs ----

  function Step(prog: seq<Action>, n: Net, p: Party): Net {
    if p == SenderTurn then SenderStep(prog, n) else ServerStep(n)
  }

  function Start(): Net {
    Net(Sender(0, SendHeader, true, 0, 0, 0), AwaitHeader, [], [], [])
  }

  function Exec(prog: seq<Action>, schedule: seq<Party>): Net {
    if schedule == [] then Start()
    else Step(prog, Exec(prog, schedule[..|schedule| - 1]), schedule[|schedule| - 1])
  }

  lemma ExecAppend(prog: seq<Action>, schedule: seq<Party>, p: Party)
    ensures Exec(prog, schedule + [p]) == Step(prog, Exec(prog, schedule), p)
  {
    assert (schedule + [p])[..|schedule|] == schedule;
  }

  /** Neither party can take a step. */
  predicate Stuck(prog: seq<Action>, n: Net) {
    SenderStep(prog, n) == n && ServerStep(n) == n
  }

  // ---- What is expected ----

  function Intended(a: Action): Effect {
    match a
    case SendFile(name, data) => Stored(Normal(name), data, true)
    case DoCommand(command) => Ran(Normal(command))
  }

  function Expected(prog: seq<Action>, k: nat): (r: seq<Effect>)
    requires k <= |prog|
    ensures |r| == k
  {
    seq(k, i requires 0 <= i < k => Intended(prog[i]))
  }

  predicate Final(prog: seq<Action>, n: Net) {
    n.sender.idx == |prog| && n.server == AwaitHeader && n.toServer == [] && n.toSender == []
    && n.effects == Expected(prog, |prog|)
  }

  // ---- Chunks ----

  function Offset(i: nat): nat {
    i * 1024
  }

  function Chunks(data: seq<byte>): nat {
    (|data| + 1023) / 1024
  }

  function ChunkAt(data: seq<byte>, i: nat): Datagram {
    Slice(data, Offset(i), Offset(i + 1))
  }

  function Window(data: seq<byte>, from: nat, to: nat): seq<Datagram>
    requires from <= to
  {
    seq(to - from, k requires 0 <= k < to - from => ChunkAt(data, from + k))
  }

  function Upto(data: seq<byte>, c: nat): seq<byte> {
    Slice(data, 0, Offset(c))
  }

  lemma WindowGrows(data: seq<byte>, from: nat, to: nat)
    requires from <= to
    ensures Window(data, from, to) + [ChunkAt(data, to)] == Window(data, from, to + 1)
  {
  }

  lemma WindowShrinks(data: seq<byte>, from: nat, to: nat)
    requires from < to
    ensures Window(data, from, to)[0] == ChunkAt(data, from)
    ensures Window(data, from, to)[1..] == Window(data, from + 1, to)
  {
  }

  lemma UptoGrows(data: seq<byte>, c: nat)
    requires c < Chunks(data)
    ensures Upto(data, c) + ChunkAt(data, c) == Upto(data, c + 1)
    ensures 0 < |ChunkAt(data, c)| <= CHUNK
    ensures |Upto(data, c)| < |data|
  {
  }

  lemma UptoAll(data: seq<byte>)
    ensures Upto(data, Chunks(data)) == data
  {
  }

  /** Every chunk but the last is full. */
  lemma ChunkSizes(data: seq<byte>, c: nat)
    requires c < Chunks(data)
    ensures |ChunkAt(data, c)| == if c + 1 < Chunks(data) then 1024 else |data| - 1024 * c
  {
  }

  // ---- Conditions a caller can check ----

  /** A file name no longer than the 255 bytes a Linux file system allows, and a size below 2^63. */
  predicate ValidAction(a: Action) {
    a.SendFile? ==> |Encode(a.name)| <= 255 && |a.data| < 0x8000_0000_0000_0000
  }

  predicate ValidProgram(prog: seq<Action>) {
    forall i :: 0 <= i < |prog| ==> ValidAction(prog[i])
  }

  predicate Fits(a: Action) {
    |Encode(Header(a))| <= RECV_SIZE
  }

  predicate CommandsFit(prog: seq<Action>) {
    forall i :: 0 <= i < |prog| && prog[i].DoCommand? ==> Fits(prog[i])
  }

  predicate MarkerFree(a: Action) {
    a.SendFile? ==> forall c :: 0 <= c < Chunks(a.data) ==> !IsMarked(ChunkAt(a.data, c))
  }

  predicate FilesMarkerFree(prog: seq<Action>) {
    forall i :: 0 <= i < |prog| ==> MarkerFree(prog[i])
  }

  // ---- Headers ----

  lemma FileWord()
    ensures Words("FILE:") == ["FILE:"] && "FILE: " == "FILE:" + " "
  {
    hide Words;
    WordsOfWord("FILE:");
  }

  lemma RunWord()
    ensures Words("RUN:") == ["RUN:"] && "RUN: " == "RUN:" + " "
  {
    hide Words;
    WordsOfWord("RUN:");
  }

  lemma MarkerWord()
    ensures Words(MARKER) == [MARKER] && " =EOFX=" == " " + MARKER
  {
    hide Words;
    WordsOfWord(MARKER);
  }

  lemma WordsAtTwoSpaces(s: string, t: string, u: string)
    ensures Words(s + " " + t + (" " + u)) == Words(s) + Words(t) + Words(u)
  {
    assert s + " " + t + (" " + u) == s + " " + t + " " + u;
    WordsAtSpace(s + " " + t, u);
    WordsAtSpace(s, t);
  }

  lemma WordsAtThreeSpaces(c: string, s: string, t: string, u: string)
    requires Words(c) == [c] && Words(s) == [s] && Words(u) == [u]
    ensures Words(c + " " + s + " " + t + (" " + u)) == [c, s] + Words(t) + [u]
  {
    WordsAtTwoSpaces(c + " " + s, t, u);
    WordsAtSpace(c, s);
    assert [c, s] == [c] + [s];
  }

  lemma FileHeaderWords(size: string, name: string)
    requires IsWord(size)
    ensures Words("FILE: " + size + " " + name + " =EOFX=") == ["FILE:", size] + Words(name) + [MARKER]
  {
    hide Words;
    FileWord();
    MarkerWord();
    WordsOfWord(size);
    WordsAtThreeSpaces("FILE:", size, name, MARKER);
  }

  lemma CommandHeaderWords(command: string)
    ensures Words("RUN: " + command + " =EOFX=") == ["RUN:"] + Words(command) + [MARKER]
  {
    hide Words;
    RunWord();
    MarkerWord();
    WordsAtTwoSpaces("RUN:", command, MARKER);
  }

  /** The request the server should make of an action's header. */
  function Asked(a: Action): Request {
    match a
    case SendFile(name, data) => File(Decimal(|data|), Normal(name))
    case DoCommand(command) => Run(Normal(command))
  }

  lemma HeaderParts(a: Action)
    ensures Parse(Header(a)) == Asked(a)
    ensures EndsWith(Header(a), MARKER)
  {
    hide Words, Join, Decimal;
    match a
    case SendFile(name, data) =>
      var size := Decimal(|data|);
      var parts := ["FILE:", size] + Words(name) + [MARKER];
      FileHeaderWords(size, name);
      assert Slice(parts, 2, |parts| - 1) == Words(name);
      assert Understand(parts) == Asked(a);
    case DoCommand(command) =>
      var parts := ["RUN:"] + Words(command) + [MARKER];
      CommandHeaderWords(command);
      assert Slice(parts, 1, |parts| - 1) == Words(command);
  }

  /** The server's third kind of request, which the sender never makes. */
  lemma LongCommandParts(command: string)
    ensures Parse("RUN_LONG: " + command + " =EOFX=") == RunLong(Normal(command))
  {
    hide Words, Join;
    WordsOfWord("RUN_LONG:");
    MarkerWord();
    WordsAtTwoSpaces("RUN_LONG:", command, MARKER);
    var parts := ["RUN_LONG:"] + Words(command) + [MARKER];
    assert "RUN_LONG: " == "RUN_LONG:" + " ";
    assert Slice(parts, 1, |parts| - 1) == Words(command);
  }

  /** Such a command is started without waiting for its end. */
  lemma LongCommandSpawned(command: string, n: Net)
    requires n.server == AwaitGreetingAck("RUN_LONG: " + command + " =EOFX=") && n.toServer != []
    ensures ServerStep(n) ==
      n.(server := AwaitHeader, toServer := n.toServer[1..], effects := n.effects + [Spawned(Normal(command))])
  {
    hide Words, Join, Parse;
    LongCommandParts(command);
  }

  /** It understands nothing that begins with another word. */
  lemma OtherWordsUnknown(header: string)
    ensures Parse(header) == Unknown <==>
      Words(header) == [] || Words(header)[0] !in ["FILE:", "RUN:", "RUN_LONG:"]
  {
  }

  lemma {:induction false} AsciiLength(s: string)
    requires forall i :: 0 <= i < |s| ==> s[i] as int < 0x80
    ensures |Encode(s)| == |s|
  {
    if s != "" {
      AsciiLength(s[1..]);
    }
  }

  lemma {:induction false} DecimalLength(n: nat, digits: nat, bound: nat)
    requires n < bound && digits > 0 && bound == Power10(digits)
    ensures |Decimal(n)| <= digits
  {
    if n >= 10 {
      DecimalLength(n / 10, digits - 1, bound / 10);
    }
  }

  function Power10(k: nat): nat {
    if k == 0 then 1 else 10 * Power10(k - 1)
  }

  /** A header for a file always fits in the server's receive buffer. */
  lemma FileHeaderFits(a: Action)
    requires a.SendFile? && ValidAction(a)
    ensures Fits(a)
  {
    var d := Decimal(|a.data|);
    assert Power10(19) == 10_000_000_000_000_000_000 by {
      assert Power10(4) == 10_000;
      assert Power10(8) == 100_000_000;
      assert Power10(12) == 1_000_000_000_000;
      assert Power10(16) == 10_000_000_000_000_000;
    }
    DecimalLength(|a.data|, 19, Power10(19));
    EncodeAppend("FILE: " + d + " " + a.name, " =EOFX=");
    EncodeAppend("FILE: " + d + " ", a.name);
    AsciiLength("FILE: " + d + " ");
    AsciiLength(" =EOFX=");
  }

  /** A header that fits is recognised and read back whole. */
  lemma HeaderReceived(a: Action)
    requires Fits(a)
    ensures var b := Slice(Encode(Header(a)), 0, RECV_SIZE);
      b == Encode(Header(a)) && b != [] && IsMarked(b) && Decode(b) == Some(Header(a))
  {
    DecodeEncode(Header(a));
    HeaderParts(a);
    assert Header(a) != "";
  }

  lemma ShortWords()
    ensures Encode("ack") != Encode("ac1")
    ensures |Encode("ack")| == 3 && |Encode("ac1")| == 3
    ensures |Encode(MARKER)| == 6 && IsMarked(Encode(MARKER)) && Slice(Encode(MARKER), 0, RECV_SIZE) == Encode(MARKER)
  {
    hide Encode, Decode;
    AsciiBytes("ack");
    AsciiBytes("ac1");
    AsciiBytes(MARKER);
    assert Encode("ack")[2] != Encode("ac1")[2];
    DecodeEncode(MARKER);
  }
}
