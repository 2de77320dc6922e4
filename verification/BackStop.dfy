/** The watchdog of backStop.py: it stops the simulation a number of cycles after it was last armed. */
module BackStop {
  import opened Collections

  /** What happens to the watchdog. Cycles pass, and the simulator gets round to calls that were handed to
      SIM_run_alone, at moments the watchdog does not choose. */
  datatype Action =
    | SetDelay(n: int)
    | SetFutureCycle(cycles: nat, now: bool)
    | FirstAlone
    | ClearCycle
    | Tick

  // ---- Reference: one deadline, or none ----

  datatype State = State(now: int, deadline: Option<int>, delay: Option<int>, deferred: seq<nat>)

  const START := State(0, None, None, [])

  /** An arming call gets through when no delay is set or the delay has just run out. */
  predicate GetsThrough(delay: Option<int>) {
    delay.None? || delay.value == 1
  }

  /** The deadline that an action sets, if it does. */
  function Arms(s: State, a: Action): Option<int> {
    if a.SetFutureCycle? && GetsThrough(s.delay) && a.now then Some(s.now + a.cycles)
    else if a.FirstAlone? && s.deferred != [] then Some(s.now + s.deferred[0])
    else None
  }

  predicate StopsAt(s: State, a: Action) {
    a.Tick? && s.deadline == Some(s.now)
  }

  function Delayed(delay: Option<int>): Option<int> {
    if GetsThrough(delay) then None else Some(delay.value - 1)
  }

  function Next(s: State, a: Action): State {
    match a
    case SetDelay(n) => s.(delay := Some(n))
    case SetFutureCycle(cycles, now) =>
      if !GetsThrough(s.delay) then s.(delay := Delayed(s.delay))
      else if now then s.(delay := None, deadline := Arms(s, a))
      else s.(delay := None, deferred := s.deferred + [cycles])
    case FirstAlone =>
      if s.deferred == [] then s else s.(deadline := Arms(s, a), deferred := s.deferred[1..])
    case ClearCycle => s.(deadline := None)
    case Tick => if StopsAt(s, a) then s.(deadline := None) else s.(now := s.now + 1)
  }

  function After(acts: seq<Action>): State {
    if acts == [] then START else Next(After(acts[..|acts| - 1]), acts[|acts| - 1])
  }

  /** A deadline is never missed. */
  lemma {:induction false} DeadlineAhead(acts: seq<Action>)
    ensures After(acts).deadline.Some? ==> After(acts).now <= After(acts).deadline.value
  {
    if acts != [] {
      DeadlineAhead(acts[..|acts| - 1]);
    }
  }

  // ---- setDelay ----

  /** How often the watchdog is asked to arm. */
  function Calls(acts: seq<Action>): nat {
    if acts == [] then 0 else Calls(acts[..|acts| - 1]) + (if acts[|acts| - 1].SetFutureCycle? then 1 else 0)
  }

  /** After setDelay(n) exactly the next n - 1 arming calls are swallowed; for n below one, all of them. */
  lemma {:induction false} DelaySwallows(before: seq<Action>, n: int, acts: seq<Action>)
    requires forall i :: 0 <= i < |acts| ==> !acts[i].SetDelay?
    ensures After(before + [SetDelay(n)] + acts).delay == if 1 <= n <= Calls(acts) then None else Some(n - Calls(acts))
    ensures GetsThrough(After(before + [SetDelay(n)] + acts).delay) <==> 1 <= n <= Calls(acts) + 1
  {
    var all := before + [SetDelay(n)] + acts;
    if acts == [] {
      assert all[..|all| - 1] == before;
    } else {
      assert all[..|all| - 1] == before + [SetDelay(n)] + acts[..|acts| - 1];
      assert all[|all| - 1] == acts[|acts| - 1];
      DelaySwallows(before, n, acts[..|acts| - 1]);
    }
  }

  // ---- Told by the actions alone ----

  function Ticks(acts: seq<Action>): nat {
    if acts == [] then 0 else Ticks(acts[..|acts| - 1]) + (if acts[|acts| - 1].Tick? then 1 else 0)
  }

  ghost predicate LastDelay(acts: seq<Action>, p: nat) {
    p < |acts| && acts[p].SetDelay? && forall m :: p < m < |acts| ==> !acts[m].SetDelay?
  }

  /** A call to arm is not swallowed after these actions: no delay has been set, or, with this one, as many
      calls have come since the last as it says. */
  ghost predicate Unswallowed(acts: seq<Action>) {
    forall p: nat :: LastDelay(acts, p) ==> 1 <= acts[p].n <= Calls(acts[p + 1..]) + 1
  }

  /** The arguments of the calls that got through and were put off, in order. */
  ghost function PutOff(acts: seq<Action>): seq<nat> {
    if acts == [] then []
    else
      var most, last := acts[..|acts| - 1], acts[|acts| - 1];
      PutOff(most) + if last.SetFutureCycle? && !last.now && Unswallowed(most) then [last.cycles] else []
  }

  /** How often the simulator got round to one of them. */
  ghost function Made(acts: seq<Action>): nat {
    if acts == [] then 0
    else
      var most, last := acts[..|acts| - 1], acts[|acts| - 1];
      Made(most) + if last.FirstAlone? && Made(most) < |PutOff(most)| then 1 else 0
  }

  /** With how many cycles an action arms the watchdog, if it does: its own, if that is not put off; and when
      the simulator gets round to the n-th call put off, those of the n-th. */
  ghost function ArmsWith(before: seq<Action>, a: Action): Option<nat> {
    if a.SetFutureCycle? && a.now && Unswallowed(before) then Some(a.cycles)
    else if a.FirstAlone? && Made(before) < |PutOff(before)| then Some(PutOff(before)[Made(before)])
    else None
  }

  /** Armed at the m-th action with so many cycles, not more of which have passed, and neither cleared nor
      armed again since. */
  ghost predicate ArmedAt(acts: seq<Action>, m: nat, cycles: nat) {
    && m < |acts| && ArmsWith(acts[..m], acts[m]) == Some(cycles)
    && (forall k :: m < k < |acts| ==> acts[k] != ClearCycle && ArmsWith(acts[..k], acts[k]) == None)
    && Ticks(acts[m + 1..]) <= cycles
  }

  /** Exactly as many cycles have passed. */
  ghost predicate Due(acts: seq<Action>) {
    exists m: nat, cycles: nat :: ArmedAt(acts, m, cycles) && Ticks(acts[m + 1..]) == cycles
  }

  lemma {:induction false} NoDelayYet(acts: seq<Action>)
    requires forall i :: 0 <= i < |acts| ==> !acts[i].SetDelay?
    ensures After(acts).delay == None
  {
    if acts != [] {
      NoDelayYet(acts[..|acts| - 1]);
    }
  }

  lemma {:induction false} SomeLastDelay(acts: seq<Action>, i: nat) returns (p: nat)
    requires i < |acts| && acts[i].SetDelay?
    ensures LastDelay(acts, p)
    decreases |acts| - i
  {
    if m :| i < m < |acts| && acts[m].SetDelay? {
      p := SomeLastDelay(acts, m);
    } else {
      p := i;
    }
  }

  lemma UnswallowedExact(acts: seq<Action>)
    ensures GetsThrough(After(acts).delay) <==> Unswallowed(acts)
  {
    hide After, GetsThrough, Calls;
    if i :| 0 <= i < |acts| && acts[i].SetDelay? {
      var p := SomeLastDelay(acts, i);
      assert acts == acts[..p] + [SetDelay(acts[p].n)] + acts[p + 1..];
      DelaySwallows(acts[..p], acts[p].n, acts[p + 1..]);
      forall q: nat | LastDelay(acts, q) ensures q == p {}
    } else {
      NoDelayYet(acts);
      NoneGetsThrough();
    }
  }

  lemma NoneGetsThrough()
    ensures GetsThrough(None)
  {
  }

  /** What waits for the simulator are the calls put off and not made yet. */
  lemma {:induction false} WaitingExact(acts: seq<Action>)
    ensures Made(acts) <= |PutOff(acts)| && After(acts).deferred == PutOff(acts)[Made(acts)..]
  {
    hide GetsThrough, Unswallowed;
    if acts != [] {
      var most := acts[..|acts| - 1];
      WaitingExact(most);
      UnswallowedExact(most);
    }
  }

  lemma ArmsExact(acts: seq<Action>, a: Action)
    ensures Arms(After(acts), a) ==
      if ArmsWith(acts, a).Some? then Some(After(acts).now + ArmsWith(acts, a).value) else None
  {
    hide After, GetsThrough, Unswallowed;
    UnswallowedExact(acts);
    WaitingExact(acts);
  }

  lemma ArmedNext(most: seq<Action>, last: Action, m: nat, cycles: nat)
    requires m < |most|
    ensures Ticks((most + [last])[m + 1..]) == Ticks(most[m + 1..]) + if last.Tick? then 1 else 0
    ensures ArmedAt(most + [last], m, cycles) <==>
      ArmedAt(most, m, cycles) && last != ClearCycle && ArmsWith(most, last) == None
      && Ticks(most[m + 1..]) + (if last.Tick? then 1 else 0) <= cycles
  {
    hide ArmsWith;
    var acts := most + [last];
    assert acts[m + 1..][..|acts[m + 1..]| - 1] == most[m + 1..];
    assert forall k :: 0 <= k <= |most| ==> acts[..k] == most[..k];
    assert acts[..|most|] == most && acts[|most|] == last;
  }

  lemma ArmedNow(most: seq<Action>, last: Action, cycles: nat)
    ensures ArmedAt(most + [last], |most|, cycles) <==> ArmsWith(most, last) == Some(cycles)
    ensures Ticks((most + [last])[|most| + 1..]) == 0
  {
    hide ArmsWith;
    assert (most + [last])[..|most|] == most;
    assert (most + [last])[|most| + 1..] == [];
  }

  /** A deadline stands exactly while an arming counts, and it is as far ahead as cycles of it are left. */
  lemma {:induction false} DeadlineIsLastArming(acts: seq<Action>)
    ensures After(acts).deadline.Some? <==> exists m: nat, cycles: nat :: ArmedAt(acts, m, cycles)
    ensures forall m: nat, cycles: nat :: ArmedAt(acts, m, cycles) ==>
      After(acts).deadline == Some(After(acts).now + cycles - Ticks(acts[m + 1..]))
  {
    hide ArmsWith, ArmedAt;
    if acts == [] {
      NothingArmed();
    } else {
      var most, last := acts[..|acts| - 1], acts[|acts| - 1];
      assert acts == most + [last];
      DeadlineIsLastArming(most);
      ArmsExact(most, last);
      DeadlineNext(most, last);
    }
  }

  lemma DeadlineNext(most: seq<Action>, last: Action)
    requires After(most).deadline.Some? <==> exists m: nat, cycles: nat :: ArmedAt(most, m, cycles)
    requires forall m: nat, cycles: nat :: ArmedAt(most, m, cycles) ==>
      After(most).deadline == Some(After(most).now + cycles - Ticks(most[m + 1..]))
    requires Arms(After(most), last) ==
      if ArmsWith(most, last).Some? then Some(After(most).now + ArmsWith(most, last).value) else None
    ensures var s, acts := Next(After(most), last), most + [last];
      && (s.deadline.Some? <==> exists m: nat, cycles: nat :: ArmedAt(acts, m, cycles))
      && forall m: nat, cycles: nat :: ArmedAt(acts, m, cycles) ==>
           s.deadline == Some(s.now + cycles - Ticks(acts[m + 1..]))
  {
    hide After, ArmsWith, ArmedAt, Ticks, GetsThrough, Delayed;
    var s, acts := Next(After(most), last), most + [last];
    forall m: nat, cycles: nat | ArmedAt(acts, m, cycles) ensures m < |acts| {
      ArmedInside(acts, m, cycles);
    }
    forall m: nat, cycles: nat | ArmedAt(acts, m, cycles)
      ensures s.deadline == Some(s.now + cycles - Ticks(acts[m + 1..]))
    {
      StillArmed(most, last, m, cycles);
    }
    if s.deadline.Some? {
      if ArmsWith(most, last).Some? {
        ArmedNow(most, last, ArmsWith(most, last).value);
      } else {
        var m: nat, cycles: nat :| ArmedAt(most, m, cycles);
        ArmedInside(most, m, cycles);
        ArmedNext(most, last, m, cycles);
      }
    }
  }

  lemma ArmedInside(acts: seq<Action>, m: nat, cycles: nat)
    requires ArmedAt(acts, m, cycles)
    ensures m < |acts| && Ticks(acts[m + 1..]) <= cycles
  {
  }

  lemma StillArmed(most: seq<Action>, last: Action, m: nat, cycles: nat)
    requires ArmedAt(most + [last], m, cycles)
    ensures m <= |most|
    ensures m == |most| ==> ArmsWith(most, last) == Some(cycles) && Ticks((most + [last])[m + 1..]) == 0
    ensures m < |most| ==> ArmedAt(most, m, cycles) && last != ClearCycle && ArmsWith(most, last) == None
    ensures m < |most| ==>
      Ticks((most + [last])[m + 1..]) == Ticks(most[m + 1..]) + (if last.Tick? then 1 else 0) <= cycles
  {
    hide ArmsWith, ArmedAt, Ticks;
    ArmedInside(most + [last], m, cycles);
    if m == |most| {
      ArmedNow(most, last, cycles);
    } else {
      ArmedNext(most, last, m, cycles);
    }
  }

  lemma NothingArmed()
    ensures forall m: nat, cycles: nat :: !ArmedAt([], m, cycles)
  {
  }

  /** Over all runs: the simulation is stopped at a tick exactly when the last effective arming was its
      number of cycles before, with no clear or re-arming since. */
  lemma StopsExactlyAtLastArming(acts: seq<Action>)
    ensures StopsAt(After(acts), Tick) <==> Due(acts)
  {
    hide After, ArmedAt, Ticks;
    DeadlineIsLastArming(acts);
  }

  // ---- The class ----

  class BackStop {
    var registered: bool
    var backStopCycle: Option<int>
    var delay: Option<int>
    var now: int              // the processor's cycle count
    var pending: seq<int>     // events of ours in the simulator's queue
    var deferred: seq<nat>    // calls handed to SIM_run_alone

    /** At most one event is ever pending, and it is the deadline. */
    ghost predicate Valid()
      reads this
    {
      && |pending| <= 1
      && (pending != [] ==> registered)
      && backStopCycle == (if pending == [] then None else Some(pending[0]))
      && (pending != [] ==> now <= pending[0])
    }

    ghost function Abs(): State
      reads this
    {
      State(now, backStopCycle, delay, deferred)
    }

    constructor ()
      ensures Valid() && Abs() == START
    {
      registered, backStopCycle, delay, now, pending, deferred := false, None, None, 0, [], [];
    }

    method Do(a: Action) returns (stopped: bool)
      requires Valid()
      modifies this
      ensures Valid() && Abs() == Next(old(Abs()), a)
      ensures stopped <==> StopsAt(old(Abs()), a)
    {
      stopped := false;
      match a
      case SetDelay(n) => delay := Some(n);
      case SetFutureCycle(cycles, immediately) => SetFutureCycle(cycles, immediately);
      case FirstAlone =>
        if deferred != [] {
          var cycles := deferred[0];
          deferred := deferred[1..];
          SetFutureCycleAlone(cycles);
        }
      case ClearCycle => ClearCycle();
      case Tick => stopped := Tick();
    }

    method ClearCycle()
      requires registered || pending == []
      modifies this`pending, this`backStopCycle
      ensures pending == [] && backStopCycle == None
    {
      if registered {
        pending := [];
      }
      backStopCycle := None;
    }

    method SetFutureCycleAlone(cycles: nat)
      requires Valid()
      modifies this`registered, this`pending, this`backStopCycle
      ensures Valid() && backStopCycle == Some(now + cycles)
    {
      if !registered {
        registered := true;
      } else {
        pending := [];
      }
      backStopCycle := Some(now + cycles);
      pending := pending + [now + cycles];
    }

    method SetFutureCycle(cycles: nat, immediately: bool)
      requires Valid()
      modifies this
      ensures Valid() && Abs() == Next(old(Abs()), Action.SetFutureCycle(cycles, immediately))
      ensures if !GetsThrough(old(delay)) then deferred == old(deferred) && backStopCycle == old(backStopCycle)
        else if immediately then deferred == old(deferred) && backStopCycle == Some(now + cycles)
        else deferred == old(deferred) + [cycles] && backStopCycle == old(backStopCycle)
    {
      var swallowed := false;
      if delay.Some? {
        delay := Some(delay.value - 1);
        if delay.value == 0 {
          delay := None;
        } else {
          swallowed := true;
        }
      }
      if !swallowed {
        if !immediately {
          deferred := deferred + [cycles];
        } else {
          SetFutureCycleAlone(cycles);
        }
      }
    }

    /** The simulator delivers an event that is due, or lets a cycle pass. */
    method Tick() returns (stopped: bool)
      requires Valid()
      modifies this
      ensures Valid() && Abs() == Next(old(Abs()), Action.Tick)
      ensures stopped <==> StopsAt(old(Abs()), Action.Tick)
    {
      stopped := false;
      if pending != [] && pending[0] == now {
        pending := pending[1..];
        stopped := CycleHandler();
      } else {
        now := now + 1;
      }
    }

    method CycleHandler() returns (stopped: bool)
      requires registered || pending == []
      modifies this`pending, this`backStopCycle
      ensures stopped <==> old(backStopCycle).Some?
      ensures if stopped then pending == [] && backStopCycle == None
        else pending == old(pending) && backStopCycle == old(backStopCycle)
    {
      stopped := false;
      if backStopCycle.Some? {
        ClearCycle();
        stopped := true;
      }
    }
  }

  /** A whole run: the watchdog stops the simulation at exactly the steps that the actions before call for. */
  method Run(acts: seq<Action>) returns (w: BackStop, stops: seq<nat>)
    ensures fresh(w) && w.Valid() && w.Abs() == After(acts)
    ensures forall n: nat :: n in stops <==>
      n < |acts| && acts[n] == Tick && Due(acts[..n])
  {
    hide After, Next, Due;
    w := new BackStop();
    stops := [];
    AfterNone();
    for n := 0 to |acts|
      invariant fresh(w) && w.Valid() && w.Abs() == After(acts[..n])
      invariant forall k: nat :: k in stops <==>
        k < n && acts[k] == Tick && Due(acts[..k])
    {
      AfterNext(acts, n);
      StopsExactlyAtLastArming(acts[..n]);
      var stopped := w.Do(acts[n]);
      if stopped {
        stops := stops + [n];
      }
    }
    assert acts[..|acts|] == acts;
  }

  lemma AfterNone()
    ensures After([]) == START
  {
  }

  lemma AfterNext(acts: seq<Action>, n: nat)
    requires n < |acts|
    ensures After(acts[..n + 1]) == Next(After(acts[..n]), acts[n]) && acts[..0] == []
  {
    hide Next;
    assert acts[..n + 1][..n] == acts[..n];
  }
}
