/** When the transfer protocol delivers: exactly when every command fits in one receive buffer and
    no chunk of any file looks like the end marker. */
module TransferDelivery {
  import opened Text
  import opened Transfer
  import opened TransferProof

  /** Every run that can go no further has delivered every file and command, whole and in order, and drained both
      queues. */
  ghost predicate AlwaysDelivers(prog: seq<Action>) {
    forall schedule: seq<Party> :: Stuck(prog, Exec(prog, schedule)) ==> Final(prog, Exec(prog, schedule))
  }

  lemma SoundDelivers(prog: seq<Action>)
    requires ValidProgram(prog) && Sound(prog)
    ensures AlwaysDelivers(prog)
  {
    hide Encode, Decode, Decimal, Words;
    forall schedule: seq<Party> | Stuck(prog, Exec(prog, schedule)) ensures Final(prog, Exec(prog, schedule)) {
      NoDeadlock(prog, schedule);
    }
  }

  // ---- Following a run up to the first thing that goes wrong ----

  ghost predicate Turning(prog: seq<Action>, n: Net) {
    Final(prog, n) || AtMisfit(prog, n) || AtEarlyMarker(prog, n)
  }

  lemma {:induction false} FollowInv(prog: seq<Action>, schedule: seq<Party>) returns (longer: seq<Party>)
    requires ValidProgram(prog) && Inv(prog, Exec(prog, schedule))
    ensures Inv(prog, Exec(prog, longer)) && Turning(prog, Exec(prog, longer))
    decreases Potential(prog, Exec(prog, schedule))
  {
    hide Encode, Decode, Decimal, Words, SenderStep, ServerStep, Potential, Inv;
    var n := Exec(prog, schedule);
    if Turning(prog, n) {
      longer := schedule;
    } else {
      UnfinishedMoves(prog, n);
      var p := if SenderStep(prog, n) != n then SenderTurn else ServerTurn;
      if p == SenderTurn {
        SenderKeepsInv(prog, n);
      } else {
        ServerKeepsInv(prog, n);
      }
      StepLowersPotential(prog, n, p);
      ExecAppend(prog, schedule, p);
      longer := FollowInv(prog, schedule + [p]);
    }
  }

  lemma FinalIsGood(prog: seq<Action>, n: Net)
    requires Inv(prog, n) && Final(prog, n)
    ensures Sound(prog)
  {
    hide Encode, Decode, Decimal, Words;
    forall i | 0 <= i < |prog| ensures Fits(prog[i]) && MarkerFree(prog[i]) {
    }
  }

  ghost predicate Fails(prog: seq<Action>, schedule: seq<Party>) {
    Stuck(prog, Exec(prog, schedule)) && !Final(prog, Exec(prog, schedule))
  }

  /** A wrong effect can never be made good. */
  lemma WrongEffectFails(prog: seq<Action>, schedule: seq<Party>, k: nat) returns (failing: seq<Party>)
    requires var e := Exec(prog, schedule).effects; k < |e| && k < |prog| && e[k] != Intended(prog[k])
    ensures Fails(prog, failing)
  {
    hide Encode, Decode, Decimal, Words;
    var more := RunsToStuck(prog, schedule);
    EffectsGrow(prog, schedule, more);
    failing := schedule + more;
    assert Exec(prog, failing).effects[k] == Exec(prog, schedule).effects[k];
    assert Expected(prog, |prog|)[k] == Intended(prog[k]);
  }

  lemma EarlyMarkerFails(prog: seq<Action>, schedule: seq<Party>) returns (failing: seq<Party>)
    requires Inv(prog, Exec(prog, schedule)) && AtEarlyMarker(prog, Exec(prog, schedule))
    ensures Fails(prog, failing)
  {
    hide Encode, Decode, Decimal, Words;
    var n := Exec(prog, schedule);
    EarlyMarkerCutsShort(prog, n);
    ExecAppend(prog, schedule, ServerTurn);
    var e := ServerStep(n).effects;
    failing := WrongEffectFails(prog, schedule + [ServerTurn], |e| - 1);
  }

  // ---- A command header that the receive buffer truncates ----

  lemma TruncatedRest(command: string, h: string) returns (rest: string)
    requires h <= Header(DoCommand(command)) && |h| >= 11 && EndsWith(h, MARKER)
    ensures h == "RUN:" + " " + rest && rest == h[5..]
    ensures EndsWith(rest, MARKER)
  {
    hide Encode, Decode, Decimal, Words;
    var full := Header(DoCommand(command));
    rest := h[5..];
    assert full[..5] == "RUN: ";
    assert h[..5] == full[..5];
    assert rest[|rest| - 6..] == h[|h| - 6..];
  }

  lemma TruncatedNeverRunsWhole(command: string, h: string)
    requires Encode(h) <= Encode(Header(DoCommand(command))) && |Encode(h)| == RECV_SIZE
    requires |Encode(Header(DoCommand(command)))| > RECV_SIZE
    requires EndsWith(h, MARKER)
    ensures Parse(h).Run? && Parse(h).command != Normal(command)
  {
    hide Encode, Decode, Decimal, Words, Join, Solid, EndsWith, Header;
    PrefixDecodesToPrefix(h, Header(DoCommand(command)));
    EncodeAtMost4(h);
    var rest := TruncatedRest(command, h);
    TruncatedIsLighter(command, h);
    RestRunsLess(command, rest);
    RunWord();
    WordsAtSpace("RUN:", rest);
    var ws := Words(rest);
    var parts := ["RUN:"] + ws;
    assert Slice(parts, 1, |parts| - 1) == ws[..|ws| - 1];
  }

  lemma RestRunsLess(command: string, rest: string)
    requires EndsWith(rest, MARKER) && Solid(rest) < Solid(command) + 6
    ensures Words(rest) != [] && Join(Words(rest)[..|Words(rest)| - 1]) != Normal(command)
  {
    hide Words, Join, Solid, EndsWith;
    var ws := Words(rest);
    MarkerIsWord();
    LastWordCovers(rest, MARKER);
    var m := |ws| - 1;
    assert ws == ws[..m] + [ws[m]];
    SolidWordsAppend(ws[..m], [ws[m]]);
    assert SolidWords([ws[m]]) == Solid(ws[m]) + SolidWords([]) by { assert [ws[m]][1..] == []; }
    SolidOfJoin(ws[..m]);
    SolidOfJoin(Words(command));
    SolidOfWords(command);
    SolidOfWords(rest);
  }

  lemma MarkerIsWord()
    ensures IsWord(MARKER) && |MARKER| == 6
  {
  }

  lemma {:induction false} EncodeAtMost4(s: string)
    ensures |Encode(s)| <= 4 * |s|
  {
    if s != "" {
      EncodeAtMost4(s[1..]);
    }
  }

  lemma {:induction false} SolidWord(w: string)
    requires forall i :: 0 <= i < |w| ==> !IsSpace(w[i])
    ensures Solid(w) == |w|
  {
    if w != "" {
      SolidWord(w[1..]);
    }
  }

  /** A strict prefix of a text that does not end in a space has fewer solid characters. */
  lemma PrefixIsLighter(s: string, t: string)
    requires s <= t && s != t && !IsSpace(t[|t| - 1])
    ensures Solid(s) < Solid(t)
  {
    var lost := t[|s|..];
    var last := t[|t| - 1];
    assert t == s + lost && lost == lost[..|lost| - 1] + [last];
    SolidAppend(s, lost);
    SolidAppend(lost[..|lost| - 1], [last]);
    assert Solid([last]) == 1 + Solid([last][1..]);
  }

  /** What is left of the command in a truncated header has fewer solid characters than command and marker together. */
  lemma TruncatedIsLighter(command: string, h: string)
    requires h <= Header(DoCommand(command)) && h != Header(DoCommand(command)) && |h| >= 5
    ensures Solid(h[5..]) < Solid(command) + 6
  {
    hide Encode, Decode, Decimal, Words, Solid;
    var full, all := Header(DoCommand(command)), command + " =EOFX=";
    assert full == "RUN: " + all;
    assert full[5..] == all;
    assert h == h[..5] + h[5..];
    assert h[5..] <= all && h[5..] != all by {
      assert full == full[..5] + all && h[..5] == full[..5];
    }
    PrefixIsLighter(h[5..], all);
    SolidAppend(command, " =EOFX=");
    SpacedMarkerIsSolid();
  }

  lemma SpacedMarkerIsSolid()
    ensures Solid(" =EOFX=") == 6
  {
    MarkerIsWord();
    SolidWord(MARKER);
    assert " =EOFX="[1..] == MARKER;
  }

  lemma SuffixOfTail(s: string, w: string, n: nat)
    requires EndsWith(s, w) && n <= |s| - |w|
    ensures EndsWith(s[n..], w)
  {
  }

  lemma SuffixIsSolid(s: string, w: string)
    requires IsWord(w) && EndsWith(s, w)
    ensures forall i :: |s| - |w| <= i < |s| ==> !IsSpace(s[i])
  {
    forall i | |s| - |w| <= i < |s| ensures !IsSpace(s[i]) {
      assert s[i] == s[|s| - |w|..][i - (|s| - |w|)];
    }
  }

  lemma RunEndsBeforeWord(s: string, w: string)
    requires IsWord(w) && EndsWith(s, w)
    ensures WordLength(s) == |s| || WordLength(s) < |s| - |w|
  {
    SuffixIsSolid(s, w);
  }

  /** A text that ends in a word has a last word at least as heavy. */
  lemma {:induction false} LastWordCovers(s: string, w: string)
    requires IsWord(w) && EndsWith(s, w)
    ensures Words(s) != [] && Solid(Words(s)[|Words(s)| - 1]) >= |w|
    decreases |s|
  {
    hide Solid, EndsWith;
    assert |s| >= |w| by { EndsWithLength(s, w); }
    if IsSpace(s[0]) {
      RunEndsBeforeWord(s, w);
      SpaceBeforeWord(s, w);
      SuffixOfTail(s, w, 1);
      LastWordCovers(s[1..], w);
    } else {
      var n := WordLength(s);
      SolidWord(s[..n]);
      RunEndsBeforeWord(s, w);
      if n == |s| {
        assert Words(s) == [s[..n]] + Words(s[n..]) && s[n..] == "";
      } else {
        SuffixOfTail(s, w, n);
        LastWordCovers(s[n..], w);
      }
    }
  }

  lemma EndsWithLength(s: string, w: string)
    requires EndsWith(s, w)
    ensures |s| >= |w|
  {
  }

  lemma SpaceBeforeWord(s: string, w: string)
    requires IsWord(w) && EndsWith(s, w) && s != "" && IsSpace(s[0])
    ensures 1 <= |s| - |w|
  {
    SuffixIsSolid(s, w);
  }

  lemma MisfitFails(prog: seq<Action>, schedule: seq<Party>) returns (failing: seq<Party>)
    requires ValidProgram(prog) && Inv(prog, Exec(prog, schedule)) && AtMisfit(prog, Exec(prog, schedule))
    ensures Fails(prog, failing)
  {
    hide Encode, Decode, Decimal, Words;
    var n := Exec(prog, schedule);
    var a := prog[n.sender.idx];
    if a.SendFile? {
      FileHeaderFits(a);
      assert false;
    } else {
      var b := Slice(n.toServer[0], 0, RECV_SIZE);
      var m := ServerStep(n);
      ExecAppend(prog, schedule, ServerTurn);
      if m.server.Greeting? {
        EncodeDecode(b);
        failing := TruncatedRuns(prog, schedule + [ServerTurn], Decode(b).value);
      } else {
        failing := schedule + [ServerTurn];
        assert m.toServer == [] && m.toSender == [];
      }
    }
  }

  lemma TruncatedRuns(prog: seq<Action>, schedule: seq<Party>, h: string) returns (failing: seq<Party>)
    requires var n := Exec(prog, schedule);
      && n.sender.idx < |prog| && prog[n.sender.idx].DoCommand? && n.sender.pc == AwaitGreeting
      && n.server == Greeting(h) && n.toServer == [] && n.toSender == [] && n.effects == Expected(prog, n.sender.idx)
      && Encode(h) <= Encode(Header(prog[n.sender.idx])) && |Encode(h)| == RECV_SIZE
      && |Encode(Header(prog[n.sender.idx]))| > RECV_SIZE && EndsWith(h, MARKER)
    ensures Fails(prog, failing)
  {
    hide Encode, Decode, Decimal, Words, Understand, Exec;
    var n := Exec(prog, schedule);
    var k := n.sender.idx;
    TruncatedNeverRunsWhole(prog[k].command, h);
    var wrong := FourSteps(prog, n, h);
    ExecAppend(prog, schedule, ServerTurn);
    ExecAppend(prog, schedule + [ServerTurn], SenderTurn);
    ExecAppend(prog, schedule + [ServerTurn] + [SenderTurn], SenderTurn);
    ExecAppend(prog, schedule + [ServerTurn] + [SenderTurn] + [SenderTurn], ServerTurn);
    var s4 := schedule + [ServerTurn] + [SenderTurn] + [SenderTurn] + [ServerTurn];
    assert Exec(prog, s4).effects == Expected(prog, k) + [Ran(Parse(h).command)];
    failing := WrongEffectFails(prog, s4, k);
  }

  /** From the greeting of a command to the server's running it. */
  lemma FourSteps(prog: seq<Action>, n: Net, h: string) returns (m: Net)
    requires n.sender.idx < |prog| && prog[n.sender.idx].DoCommand? && n.sender.pc == AwaitGreeting
    requires n.server == Greeting(h) && n.toServer == [] && n.toSender == [] && Parse(h).Run?
    ensures m == ServerStep(SenderStep(prog, SenderStep(prog, ServerStep(n))))
    ensures m.effects == n.effects + [Ran(Parse(h).command)]
  {
    hide Encode, Decode, Decimal, Words, Understand;
    var n1 := ServerStep(n);
    assert n1.toSender != [];
    var n2 := SenderStep(prog, n1);
    var n3 := SenderStep(prog, n2);
    assert n3.toServer != [] && n3.server == AwaitGreetingAck(h);
    m := ServerStep(n3);
  }

  /** The exact condition, which a caller can check before sending anything. */
  lemma DeliversIffSound(prog: seq<Action>)
    requires ValidProgram(prog)
    ensures AlwaysDelivers(prog) <==> CommandsFit(prog) && FilesMarkerFree(prog)
  {
    hide Encode, Decode, Decimal, Words;
    if Sound(prog) {
      SoundDelivers(prog);
    } else {
      InvAtStart(prog);
      assert Exec(prog, []) == Start();
      var schedule := FollowInv(prog, []);
      var n := Exec(prog, schedule);
      var failing: seq<Party>;
      if Final(prog, n) {
        FinalIsGood(prog, n);
        assert false;
      } else if AtMisfit(prog, n) {
        failing := MisfitFails(prog, schedule);
      } else {
        failing := EarlyMarkerFails(prog, schedule);
      }
      assert Fails(prog, failing);
    }
  }
}
