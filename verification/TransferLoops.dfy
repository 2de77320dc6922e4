/** The two loops at the heart of the transfer, in the scripts' own form: cutting a file into
    datagrams, and putting the datagrams back together. */
module TransferLoops {
  import opened Collections
  import opened Text
  import opened Transfer
  import opened TransferProof

  /** The body of sendFiles for one file: the datagrams it sends, and after how many of them it waits for an ack. */
  method SendFileData(data: seq<byte>) returns (sent: seq<Datagram>, waits: seq<nat>)
    ensures sent == Window(data, 0, Chunks(data)) + [END]
    ensures waits == AckPoints(Chunks(data))
  {
    var remain, ptr, pcount := |data|, 0, 0;
    sent, waits := [], [];
    while remain > 0
      invariant pcount <= Chunks(data)
      invariant if pcount < Chunks(data) then ptr == Offset(pcount) && remain == |data| - Offset(pcount) && remain > 0
        else remain == 0
      invariant sent == Window(data, 0, pcount)
      invariant waits == AckPoints(pcount)
    {
      var end := if remain >= 1024 then ptr + 1024 else ptr + remain;
      var sendThis := data[ptr..end];
      assert sendThis == ChunkAt(data, pcount);
      WindowGrows(data, 0, pcount);
      if remain >= 1024 {
        remain, ptr := remain - 1024, ptr + 1024;
      } else {
        remain := 0;
      }
      sent := sent + [sendThis];
      pcount := pcount + 1;
      if pcount % 20 == 0 {
        waits := waits + [pcount];
      }
    }
    sent := sent + [Encode(MARKER)];
  }

  /** The counts, up to n, at which an acknowledgment passes. */
  function AckPoints(n: nat): seq<nat> {
    if n == 0 then [] else if AckDue(n) then AckPoints(n - 1) + [n] else AckPoints(n - 1)
  }

  lemma {:induction false} AckPointsExact(n: nat)
    ensures forall k: nat :: k in AckPoints(n) <==> 1 <= k <= n && k % 20 == 0
    ensures forall i, j :: 0 <= i < j < |AckPoints(n)| ==> AckPoints(n)[i] < AckPoints(n)[j]
  {
    if n > 0 {
      AckPointsExact(n - 1);
      var before := AckPoints(n - 1);
      assert forall i :: 0 <= i < |before| ==> before[i] in before;
    }
  }

  /** Index of the first datagram that the server takes for an end marker. */
  function EndIndex(input: seq<Datagram>): (k: nat)
    ensures k <= |input| && (k < |input| ==> IsMarked(input[k]))
    ensures forall i :: 0 <= i < k ==> !IsMarked(input[i])
  {
    if input == [] || IsMarked(input[0]) then 0 else 1 + EndIndex(input[1..])
  }

  /** The server's receive loop for one file, on the datagrams that arrive. */
  method ReceiveFileData(input: seq<Datagram>) returns (content: seq<byte>, taken: nat, acks: seq<nat>)
    requires EndIndex(input) < |input|
    requires forall i :: 0 <= i < |input| ==> |input[i]| <= RECV_SIZE
    ensures taken == EndIndex(input) + 1
    ensures content == Concat(input[..EndIndex(input)]) + ButLast(input[EndIndex(input)], 6)
    ensures acks == AckPoints(EndIndex(input))
  {
    content, taken, acks := [], 0, [];
    var count := 0;
    while true
      invariant count == taken <= EndIndex(input)
      invariant content == Concat(input[..count])
      invariant acks == AckPoints(count)
      decreases |input| - taken
    {
      var readData := input[taken];
      taken := taken + 1;
      if IsMarked(readData) {
        content := content + ButLast(readData, 6);
        return;
      }
      count := count + 1;
      if count % 20 == 0 {
        acks := acks + [count];
      }
      assert input[..count] == input[..count - 1] + [readData];
      assert input[..count][..count - 1] == input[..count - 1];
      content := content + readData;
    }
  }

  lemma {:induction false} ConcatWindow(data: seq<byte>, c: nat)
    requires c <= Chunks(data)
    ensures Concat(Window(data, 0, c)) == Upto(data, c)
  {
    if c > 0 {
      ConcatWindow(data, c - 1);
      UptoGrows(data, c - 1);
      WindowGrows(data, 0, c - 1);
      assert Window(data, 0, c)[..c - 1] == Window(data, 0, c - 1);
    }
  }

  /** What the sender's loop cuts up, the server's loop puts back together, exactly when no chunk
      looks like the end marker; and then both have counted the same acknowledgments. */
  lemma ReassembledIffMarkerFree(name: string, data: seq<byte>)
    ensures var input := Window(data, 0, Chunks(data)) + [END]; var k := EndIndex(input);
      && k < |input|
      && (Concat(input[..k]) + ButLast(input[k], 6) == data <==> MarkerFree(SendFile(name, data)))
      && (MarkerFree(SendFile(name, data)) ==> AckPoints(k) == AckPoints(Chunks(data)))
  {
    hide Encode, Decode;
    var n := Chunks(data);
    var input := Window(data, 0, n) + [END];
    var k := EndIndex(input);
    ShortWords();
    assert input[n] == END;
    assert k <= n;
    assert input[..k] == Window(data, 0, k);
    ConcatWindow(data, k);
    assert forall i :: 0 <= i < n ==> input[i] == ChunkAt(data, i);
    if k == n {
      UptoAll(data);
      assert ButLast(END, 6) == [];
      assert forall c :: 0 <= c < n ==> !IsMarked(ChunkAt(data, c));
    } else {
      assert IsMarked(ChunkAt(data, k));
      UptoGrows(data, k);
      assert |Upto(data, k) + ButLast(ChunkAt(data, k), 6)| < |Upto(data, k + 1)| <= |data|;
    }
  }
}
