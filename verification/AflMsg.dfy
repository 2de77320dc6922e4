/** The messages between afl.py and AFL: a length in four bytes, then that many bytes, over a stream that
    recv may cut anywhere. */
module AflMsg {
  import opened Collections
  import Text

  type byte = Text.byte
  type Bytes = seq<byte>

  /** struct.pack("i", n) and struct.unpack: four bytes, little-endian, two's complement. */
  predicate FitsLength(n: int) {
    -0x8000_0000 <= n < 0x8000_0000
  }

  function Pack(n: int): (b: Bytes)
    requires FitsLength(n)
    ensures |b| == 4
  {
    var u := if n < 0 then n + 0x1_0000_0000 else n;
    var v := u / 256;
    var w := v / 256;
    [u % 256, v % 256, w % 256, w / 256]
  }

  function Unpack(b: Bytes): (n: int)
    requires |b| == 4
    ensures FitsLength(n)
  {
    var b0: int, b1: int, b2: int, b3: int := b[0], b[1], b[2], b[3];
    var u := b0 + 256 * (b1 + 256 * (b2 + 256 * b3));
    if u >= 0x8000_0000 then u - 0x1_0000_0000 else u
  }

  /** The least significant byte comes first, and a negative number is its two's complement. */
  lemma PackBytes(n: int)
    requires FitsLength(n)
    ensures var b := Pack(n);
      b[0] as int + 0x100 * (b[1] as int) + 0x1_0000 * (b[2] as int) + 0x100_0000 * (b[3] as int)
        == if n < 0 then n + 0x1_0000_0000 else n
  {
    var u := if n < 0 then n + 0x1_0000_0000 else n;
    var v := u / 256;
    var w := v / 256;
    assert u == 256 * v + u % 256 && v == 256 * w + v % 256 && w == 256 * (w / 256) + w % 256;
  }

  lemma UnpackPack(n: int)
    requires FitsLength(n)
    ensures Unpack(Pack(n)) == n
  {
    var u := if n < 0 then n + 0x1_0000_0000 else n;
    var v := u / 256;
    var w := v / 256;
    assert u == 256 * v + u % 256 && v == 256 * w + v % 256 && w == 256 * (w / 256) + w % 256;
  }

  function Frame(payload: Bytes): Bytes
    requires FitsLength(|payload|)
  {
    Pack(|payload|) + payload
  }

  function Frames(payloads: seq<Bytes>): Bytes
    requires forall i :: 0 <= i < |payloads| ==> FitsLength(|payloads[i]|)
  {
    if payloads == [] then [] else Frame(payloads[0]) + Frames(payloads[1..])
  }

  // ---- sendMsg ----

  /** What sendMsg puts on the wire: the number of characters, then the UTF-8 bytes. */
  function Sent(msg: string): Option<Bytes> {
    if FitsLength(|msg|) then Some(Pack(|msg|) + Text.Encode(msg)) else None
  }

  predicate IsAscii(msg: string) {
    forall i :: 0 <= i < |msg| ==> msg[i] < 128 as char
  }

  lemma {:induction false} EncodedLength(msg: string)
    ensures |Text.Encode(msg)| >= |msg|
    ensures |Text.Encode(msg)| == |msg| <==> IsAscii(msg)
  {
    if msg != "" {
      EncodedLength(msg[1..]);
      assert msg == [msg[0]] + msg[1..];
      assert |Text.EncodeChar(msg[0])| == 1 <==> msg[0] < 128 as char;
    }
  }

  /** The length is right for ASCII text and for no other. */
  lemma SentIsFrameIffAscii(msg: string)
    requires FitsLength(|Text.Encode(msg)|)
    ensures Sent(msg) == Some(Frame(Text.Encode(msg))) <==> IsAscii(msg)
  {
    hide Pack, Unpack;
    EncodedLength(msg);
    if Sent(msg) == Some(Frame(Text.Encode(msg))) {
      UnpackPack(|msg|);
      UnpackPack(|Text.Encode(msg)|);
      assert Pack(|msg|) == Sent(msg).value[..4] == Frame(Text.Encode(msg))[..4] == Pack(|Text.Encode(msg)|);
    }
  }

  // ---- getMsg ----

  /** A message; None when the other side is gone; Raised when the length comes in pieces. */
  datatype Outcome = Message(msg: Bytes) | Gone | Raised

  /** What a reader finds at the front of a stream, and what it leaves there. */
  function Read(stream: Bytes): (Outcome, Bytes) {
    if stream == [] then (Gone, [])
    else if |stream| < 4 then (Raised, [])
    else
      var n, rest := Unpack(stream[..4]), stream[4..];
      if n <= 0 then (Message([]), rest)
      else if |rest| < n then (Gone, [])
      else (Message(rest[..n]), rest[n..])
  }

  lemma ReadFront(n: nat, body: Bytes, rest: Bytes)
    requires FitsLength(n) && n <= |body|
    ensures Read(Pack(n) + body + rest) == (Message(body[..n]), body[n..] + rest)
  {
    hide Pack, Unpack;
    var stream := Pack(n) + body + rest;
    UnpackPack(n);
    assert stream[..4] == Pack(n) && stream[4..] == body + rest;
    assert (body + rest)[..n] == body[..n] && (body + rest)[n..] == body[n..] + rest;
    if n == 0 {
      assert body[0..] == body;
    }
  }

  /** A frame is read back whole, and nothing of the next one with it. */
  lemma ReadFrame(payload: Bytes, rest: Bytes)
    requires FitsLength(|payload|)
    ensures Read(Frame(payload) + rest) == (Message(payload), rest)
  {
    hide Pack, Read;
    ReadFront(|payload|, payload, rest);
    assert payload[..|payload|] == payload && payload[|payload|..] + rest == rest;
  }

  /** Of a text that is not ASCII the other side takes the first bytes for the message, and the bytes left
      over for the next length. */
  lemma NonAsciiIsCut(msg: string, rest: Bytes)
    requires Sent(msg).Some?
    ensures |msg| <= |Text.Encode(msg)|
    ensures Read(Sent(msg).value + rest) == (Message(Text.Encode(msg)[..|msg|]), Text.Encode(msg)[|msg|..] + rest)
    ensures Text.Encode(msg)[|msg|..] == [] <==> IsAscii(msg)
  {
    hide Pack, Read, Text.Encode, IsAscii;
    EncodedLength(msg);
    ReadFront(|msg|, Text.Encode(msg), rest);
  }

  /** A connected socket, as the reader sees it: what has been sent to it and not been received yet. */
  class Socket {
    var incoming: Bytes

    constructor (stream: Bytes)
      ensures incoming == stream
    {
      incoming := stream;
    }

    /** Any non-empty piece up to n bytes; nothing only when there is nothing more to come. `uncut` says that
        the network happens to deliver all that is asked for and there. */
    method Recv(n: nat, uncut: bool) returns (data: Bytes)
      requires n > 0
      modifies this
      ensures old(incoming) == data + incoming && |data| <= n
      ensures data == [] <==> old(incoming) == []
      ensures uncut ==> |data| == n || incoming == []
    {
      var most: nat := if n < |incoming| then n else |incoming|;
      var k: nat :| k <= most && (k == 0 || uncut ==> most == k);
      data := incoming[..k];
      incoming := incoming[k..];
    }

    /** `whole` says that the length did not come in pieces; it does not when the network delivers it uncut. */
    method GetMsg(uncut: bool) returns (outcome: Outcome, ghost whole: bool)
      modifies this
      ensures uncut && |old(incoming)| >= 4 ==> whole
      ensures whole <==> |old(incoming)| - |incoming| >= 4 || old(incoming) == []
      ensures if whole then (outcome, incoming) == Read(old(incoming)) else outcome == Raised
    {
      hide Pack, Unpack;
      ghost var stream := incoming;
      var data := Recv(4, uncut);
      whole := data == [] || |data| == 4;
      if |data| == 0 {
        outcome := Gone;
        return;
      }
      if |data| != 4 {
        outcome := Raised;
        return;
      }
      assert stream[..4] == data && stream[4..] == incoming;
      var msgLen := Unpack(data);
      outcome := GetBody(msgLen);
    }

    /** The loop of getMsg: it asks for what is still missing, so it never reads past the message. */
    method GetBody(msgLen: int) returns (outcome: Outcome)
      modifies this
      ensures if msgLen <= 0 then outcome == Message([]) && incoming == old(incoming)
        else if |old(incoming)| < msgLen then outcome == Gone && incoming == []
        else outcome == Message(old(incoming)[..msgLen]) && incoming == old(incoming)[msgLen..]
    {
      var msg: Bytes := [];
      var expected, amountReceived := msgLen, 0;
      assert [] + incoming == incoming;
      while amountReceived < msgLen
        invariant old(incoming) == msg + incoming
        invariant amountReceived == |msg| && expected == msgLen - amountReceived
        invariant msgLen > 0 ==> amountReceived <= msgLen
        invariant msgLen <= 0 ==> msg == []
        decreases msgLen - amountReceived
      {
        ghost var before := incoming;
        var data := Recv(expected, false);
        if |data| == 0 {
          outcome := Gone;
          return;
        }
        assert msg + before == (msg + data) + incoming;
        amountReceived := amountReceived + |data|;
        expected := expected - |data|;
        msg := msg + data;
      }
      outcome := Message(msg);
    }

    /** What comes out are the first messages as they were sent, however recv cuts the stream, up to the first
        whose length it cuts; and all of them, with nothing taken of what follows, if it cuts no length. */
    method GetAll(ghost payloads: seq<Bytes>, n: nat, ghost rest: Bytes, uncut: bool) returns (got: seq<Bytes>)
      requires n == |payloads| && forall i :: 0 <= i < n ==> FitsLength(|payloads[i]|)
      requires incoming == Frames(payloads) + rest
      modifies this
      ensures got <= payloads && (got == payloads ==> incoming == rest)
      ensures uncut ==> got == payloads
    {
      hide Pack, Unpack, Read, Frame, Frames;
      got := [];
      var raised := false;
      while |got| < n && !raised
        invariant |got| <= n && got == payloads[..|got|] && (raised ==> !uncut && |got| < n)
        invariant !raised ==> incoming == Frames(payloads[|got|..]) + rest
        decreases n - |got|, !raised
      {
        FramesNext(payloads, |got|, rest);
        var outcome, whole := GetMsg(uncut);
        if outcome.Message? {
          got := got + [outcome.msg];
        } else {
          raised := true;
        }
      }
      NoFrames(payloads, n, rest);
    }
  }

  lemma FrameStarts(payload: Bytes)
    requires FitsLength(|payload|)
    ensures |Frame(payload)| >= 4
  {
  }

  lemma FramesNext(payloads: seq<Bytes>, k: nat, rest: Bytes)
    requires k < |payloads| && forall i :: 0 <= i < |payloads| ==> FitsLength(|payloads[i]|)
    ensures |Frames(payloads[k..]) + rest| >= 4
    ensures Read(Frames(payloads[k..]) + rest) == (Message(payloads[k]), Frames(payloads[k + 1..]) + rest)
  {
    hide Read, Frame;
    FrameStarts(payloads[k]);
    ReadFrame(payloads[k], Frames(payloads[k + 1..]) + rest);
    assert payloads[k..][1..] == payloads[k + 1..];
    assert Frame(payloads[k]) + Frames(payloads[k + 1..]) + rest ==
      Frame(payloads[k]) + (Frames(payloads[k + 1..]) + rest);
  }

  lemma NoFrames(payloads: seq<Bytes>, n: nat, rest: Bytes)
    requires n == |payloads|
    ensures payloads[n..] == [] && payloads[..n] == payloads && Frames([]) + rest == rest
  {
  }
}
