/** When the transfer protocol delivers under the very names, and runs the very commands, that were sent. */
module TransferNames {
  import opened Text
  import opened Transfer
  import opened TransferProof
  import opened TransferDelivery

  /** What a user of the driver asks for. */
  function AsSent(a: Action): Effect {
    match a
    case SendFile(name, data) => Stored(name, data, true)
    case DoCommand(command) => Ran(command)
  }

  function AllAsSent(prog: seq<Action>): seq<Effect> {
    seq(|prog|, i requires 0 <= i < |prog| => AsSent(prog[i]))
  }

  function NameOf(a: Action): string {
    match a
    case SendFile(name, _) => name
    case DoCommand(command) => command
  }

  predicate AllTidy(prog: seq<Action>) {
    forall i :: 0 <= i < |prog| ==> Tidy(NameOf(prog[i]))
  }

  /** Every run that can go no further has stored every file under its name and run every command as given. */
  ghost predicate AlwaysDeliversAsSent(prog: seq<Action>) {
    forall schedule: seq<Party> :: Stuck(prog, Exec(prog, schedule)) ==> DeliveredAsSent(prog, Exec(prog, schedule))
  }

  predicate DeliveredAsSent(prog: seq<Action>, n: Net) {
    n.sender.idx == |prog| && n.server == AwaitHeader && n.toServer == [] && n.toSender == []
    && n.effects == AllAsSent(prog)
  }

  // ---- Whatever is sent, the server only ever uses tidy names ----

  predicate TidyEffect(e: Effect) {
    match e
    case Stored(name, _, _) => Tidy(name)
    case Ran(command) => Tidy(command)
    case Spawned(command) => Tidy(command)
  }

  predicate TidyServer(s: Server) {
    (s.Receiving? || s.AckBlock?) ==> Tidy(s.name)
  }

  predicate TidyNet(n: Net) {
    TidyServer(n.server) && forall i :: 0 <= i < |n.effects| ==> TidyEffect(n.effects[i])
  }

  predicate TidyRequest(r: Request) {
    match r
    case File(_, name) => Tidy(name)
    case Run(command) => Tidy(command)
    case RunLong(command) => Tidy(command)
    case Unknown => true
  }

  lemma ParsedIsTidy(header: string)
    ensures TidyRequest(Parse(header))
  {
    hide Tidy, Words, Join;
    var parts := Words(header);
    if parts != [] {
      JoinIsTidy(Slice(parts, 1, |parts| - 1));
      JoinIsTidy(Slice(parts, 2, |parts| - 1));
    }
  }

  lemma {:induction false} RunIsTidy(prog: seq<Action>, schedule: seq<Party>)
    ensures TidyNet(Exec(prog, schedule))
  {
    hide Tidy, Encode, Decode, Decimal, Parse;
    if schedule != [] {
      var before := Exec(prog, schedule[..|schedule| - 1]);
      RunIsTidy(prog, schedule[..|schedule| - 1]);
      if before.server.AwaitGreetingAck? {
        ParsedIsTidy(before.server.header);
      }
    }
  }

  lemma TidyIsExpected(prog: seq<Action>)
    ensures AllTidy(prog) <==> Expected(prog, |prog|) == AllAsSent(prog)
  {
    hide Normal, Tidy;
    forall i | 0 <= i < |prog| ensures Tidy(NameOf(prog[i])) <==> Intended(prog[i]) == AsSent(prog[i]) {
      NormalIffTidy(NameOf(prog[i]));
    }
    if Expected(prog, |prog|) == AllAsSent(prog) {
      forall i | 0 <= i < |prog| ensures Intended(prog[i]) == AsSent(prog[i]) {
        assert Expected(prog, |prog|)[i] == AllAsSent(prog)[i];
      }
    }
  }

  lemma DeliveredNamesAreTidy(prog: seq<Action>)
    requires AlwaysDeliversAsSent(prog)
    ensures AllTidy(prog)
  {
    hide Tidy, Stuck;
    var schedule := RunsToStuck(prog, []);
    assert [] + schedule == schedule;
    RunIsTidy(prog, schedule);
    forall i | 0 <= i < |prog| ensures Tidy(NameOf(prog[i])) {
      assert TidyEffect(AllAsSent(prog)[i]);
    }
  }

  /** The protocol delivers exactly what was sent, under exactly the names sent, if and only if every command
      fits, no chunk looks like the end marker, and every name and command is tidy. */
  lemma DeliversAsSentIffSoundAndTidy(prog: seq<Action>)
    requires ValidProgram(prog)
    ensures AlwaysDeliversAsSent(prog) <==> CommandsFit(prog) && FilesMarkerFree(prog) && AllTidy(prog)
  {
    hide CommandsFit, FilesMarkerFree, AllTidy, Stuck, Expected, AllAsSent;
    DeliversIffSound(prog);
    TidyIsExpected(prog);
    if AlwaysDeliversAsSent(prog) {
      DeliveredNamesAreTidy(prog);
      forall schedule: seq<Party> | Stuck(prog, Exec(prog, schedule)) ensures Final(prog, Exec(prog, schedule)) {
        assert DeliveredAsSent(prog, Exec(prog, schedule));
      }
    }
    if AlwaysDelivers(prog) && AllTidy(prog) {
      forall schedule: seq<Party> | Stuck(prog, Exec(prog, schedule))
        ensures DeliveredAsSent(prog, Exec(prog, schedule))
      {
        assert Final(prog, Exec(prog, schedule));
      }
    }
  }
}
