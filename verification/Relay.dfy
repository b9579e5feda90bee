/** Connection slots of the egress relay (crates/ward-agent/src/relay.rs).

    One accept thread takes slots from a shared counter with a load and compare-and-swap loop;
    every connection runs on threads of its own and gives its slot back at the end. A run is any
    interleaving of their atomic steps; a step that is not enabled changes nothing. */
module Relay {
  import opened Wrappers

  const MAX_CONNECTIONS: nat := 256
  const USIZE_MAX: nat := 0xFFFF_FFFF_FFFF_FFFF

  /** The life of one connection that took a slot. `inbound` and `outbound` say that the pump of
      that direction is still running; `early` records that one was when the slot was given back. */
  datatype Connection =
    | Spawning
    | Serving
    | Pumping(inbound: bool, outbound: bool)
    | Leaving
    | Unwinding(inbound: bool)
    | Closed(early: bool, inbound: bool)

  /** The accept thread: waiting for a client, inside `Slot::take` with the value it read, or
      holding the slot of a connection it is about to spawn. */
  datatype Acceptor = Accepting | Loaded(previous: nat) | HasSlot(connection: nat)

  /** What a panic does: end the process, as in the release profile, or unwind its thread. */
  datatype PanicStrategy = Abort | Unwind

  /** `refusedAt` records the counter value on which each refusal was based; `ended` says that a
      panic has ended the process. */
  datatype State = State(
    live: nat, acceptor: Acceptor, connections: seq<Connection>, refusedAt: seq<nat>,
    strategy: PanicStrategy, ended: bool)

  datatype Step =
    | Load                              // a client was accepted; take reads the counter
    | CompareAndSwap(spurious: bool)    // take tries to install previous + 1; may fail spuriously
    | SpawnOk
    | SpawnFails                        // the closure is dropped, and the slot with it
    | ServeFails(c: nat)                // connect, clone or spawn failed before any pumping
    | PumpsStart(c: nat)
    | InboundEnds(c: nat)               // end of file or failure
    | OutboundEnds(c: nat)
    | InboundPanics(c: nat)             // unwinding ends the thread; `serve` joins it
    | OutboundPanics(c: nat)            // unwinding leaves `serve` without joining
    | Join(c: nat)                      // serve joins the inbound thread and returns
    | DropSlot(c: nat)

  predicate HoldsSlot(c: Connection) {
    !c.Closed?
  }

  function Held(connections: seq<Connection>): nat {
    if connections == [] then 0
    else Held(connections[..|connections| - 1]) + (if HoldsSlot(connections[|connections| - 1]) then 1 else 0)
  }

  /** `fetch_sub(1)`, which wraps. */
  function FetchSub(live: nat): nat {
    if live == 0 then USIZE_MAX else live - 1
  }

  function Release(s: State, c: nat, inbound: bool): State
    requires c < |s.connections|
  {
    s.(live := FetchSub(s.live), connections := s.connections[c := Closed(inbound, inbound)])
  }

  function Become(s: State, c: nat, after: Connection): State
    requires c < |s.connections|
  {
    s.(connections := s.connections[c := after])
  }

  /** A panic in a running thread of connection `c`, which unwinding would leave as `after`. */
  function Panic(s: State, c: nat, after: Connection): State
    requires c < |s.connections|
  {
    if s.strategy == Abort then s.(ended := true) else Become(s, c, after)
  }

  /** A step of the accept thread. */
  function AcceptorStep(s: State, step: Step): State {
    match (step, s.acceptor)
    case (Load, Accepting) => s.(acceptor := Loaded(s.live))
    case (CompareAndSwap(spurious), Loaded(previous)) =>
      if previous >= MAX_CONNECTIONS then s.(acceptor := Accepting, refusedAt := s.refusedAt + [previous])
      else if s.live == previous && !spurious then
        s.(live := previous + 1, acceptor := HasSlot(|s.connections|), connections := s.connections + [Spawning])
      else s.(acceptor := Loaded(s.live))
    case (SpawnOk, HasSlot(c)) =>
      if c < |s.connections| then s.(acceptor := Accepting, connections := s.connections[c := Serving]) else s
    case (SpawnFails, HasSlot(c)) =>
      if c < |s.connections| then Release(s, c, false).(acceptor := Accepting) else s
    case _ => s
  }

  /** A step of connection `c`'s threads. */
  function ConnectionStep(s: State, step: Step, c: nat): State {
    if c >= |s.connections| then s else
    match (step, s.connections[c])
    case (ServeFails(_), Serving) => Become(s, c, Leaving)
    case (PumpsStart(_), Serving) => Become(s, c, Pumping(true, true))
    case (InboundEnds(_), Pumping(_, outbound)) => Become(s, c, Pumping(false, outbound))
    case (InboundEnds(_), Unwinding(_)) => Become(s, c, Unwinding(false))
    case (InboundEnds(_), Closed(early, _)) => Become(s, c, Closed(early, false))
    case (OutboundEnds(_), Pumping(inbound, true)) => Become(s, c, Pumping(inbound, false))
    case (InboundPanics(_), Pumping(true, outbound)) => Panic(s, c, Pumping(false, outbound))
    case (InboundPanics(_), Unwinding(true)) => Panic(s, c, Unwinding(false))
    case (InboundPanics(_), Closed(early, true)) => Panic(s, c, Closed(early, false))
    case (OutboundPanics(_), Pumping(inbound, true)) => Panic(s, c, Unwinding(inbound))
    case (Join(_), Pumping(false, false)) => Become(s, c, Leaving)
    case (DropSlot(_), Leaving) => Release(s, c, false)
    case (DropSlot(_), Unwinding(inbound)) => Release(s, c, inbound)
    case _ => s
  }

  predicate OfAcceptor(step: Step) {
    step.Load? || step.CompareAndSwap? || step.SpawnOk? || step.SpawnFails?
  }

  function Next(s: State, step: Step): State {
    if s.ended then s
    else if OfAcceptor(step) then AcceptorStep(s, step)
    else ConnectionStep(s, step, step.c)
  }

  function Exec(s: State, steps: seq<Step>): State {
    if steps == [] then s else Next(Exec(s, steps[..|steps| - 1]), steps[|steps| - 1])
  }

  function Start(strategy: PanicStrategy): State {
    State(0, Accepting, [], [], strategy, false)
  }

  // -------------------------------------------------------------------------------------------
  // The invariant

  predicate Counted(s: State) {
    s.live == Held(s.connections) <= MAX_CONNECTIONS
  }

  predicate Tracked(s: State) {
    && (s.acceptor.Loaded? ==> s.acceptor.previous <= MAX_CONNECTIONS)
    && (s.acceptor.HasSlot? ==> s.acceptor.connection < |s.connections|)
    && (forall c | 0 <= c < |s.connections| :: s.connections[c] == Spawning <==> s.acceptor == HasSlot(c))
    && (forall i | 0 <= i < |s.refusedAt| :: s.refusedAt[i] == MAX_CONNECTIONS)
  }

  predicate Inv(s: State) {
    Counted(s) && Tracked(s)
  }

  lemma {:induction false} HeldUpdate(connections: seq<Connection>, c: nat, after: Connection)
    requires c < |connections|
    ensures Held(connections[c := after]) ==
              Held(connections) - (if HoldsSlot(connections[c]) then 1 else 0) + (if HoldsSlot(after) then 1 else 0)
    ensures HoldsSlot(connections[c]) ==> Held(connections) >= 1
  {
    var n := |connections| - 1;
    if c == n {
      assert connections[c := after][..n] == connections[..n];
    } else {
      assert connections[c := after][..n] == connections[..n][c := after];
      HeldUpdate(connections[..n], c, after);
    }
  }

  lemma HeldAppend(connections: seq<Connection>, c: Connection)
    ensures Held(connections + [c]) == Held(connections) + (if HoldsSlot(c) then 1 else 0)
  {
    assert (connections + [c])[..|connections|] == connections;
  }

  lemma TakeKeepsCounted(s: State, step: Step)
    requires Counted(s) && (step.Load? || step.CompareAndSwap?)
    ensures Counted(AcceptorStep(s, step))
  {
    HeldAppend(s.connections, Spawning);
  }

  lemma TakeKeepsTracked(s: State, step: Step)
    requires Inv(s) && (step.Load? || step.CompareAndSwap?)
    ensures Tracked(AcceptorStep(s, step))
  {
  }

  lemma SpawnKeepsCounted(s: State, step: Step)
    requires Inv(s) && (step.SpawnOk? || step.SpawnFails?)
    ensures Counted(AcceptorStep(s, step))
  {
    if s.acceptor.HasSlot? {
      HeldUpdate(s.connections, s.acceptor.connection, Serving);
      HeldUpdate(s.connections, s.acceptor.connection, Closed(false, false));
    }
  }

  lemma SpawnKeepsTracked(s: State, step: Step)
    requires Tracked(s) && (step.SpawnOk? || step.SpawnFails?)
    ensures Tracked(AcceptorStep(s, step))
  {
  }

  lemma ConnectionKeepsCounted(s: State, step: Step, c: nat)
    requires Counted(s)
    ensures Counted(ConnectionStep(s, step, c))
  {
    if c < |s.connections| {
      HeldUpdate(s.connections, c, ConnectionStep(s, step, c).connections[c]);
    }
  }

  lemma ConnectionKeepsTracked(s: State, step: Step, c: nat)
    requires Tracked(s)
    ensures Tracked(ConnectionStep(s, step, c))
  {
  }

  lemma StepsKeepInv(s: State, step: Step)
    requires Inv(s)
    ensures Inv(Next(s, step))
  {
    if step.Load? || step.CompareAndSwap? {
      TakeKeepsCounted(s, step);
      TakeKeepsTracked(s, step);
    } else if step.SpawnOk? || step.SpawnFails? {
      SpawnKeepsCounted(s, step);
      SpawnKeepsTracked(s, step);
    } else {
      ConnectionKeepsCounted(s, step, step.c);
      ConnectionKeepsTracked(s, step, step.c);
    }
  }

  lemma {:induction false} RunsKeepInv(s: State, steps: seq<Step>)
    requires Inv(s)
    ensures Inv(Exec(s, steps))
  {
    if steps != [] {
      RunsKeepInv(s, steps[..|steps| - 1]);
      StepsKeepInv(Exec(s, steps[..|steps| - 1]), steps[|steps| - 1]);
    }
  }

  // -------------------------------------------------------------------------------------------
  // Every interleaving

  /** The counter is exactly the number of slots taken and not yet given back, stays within
      0..=256, and a client is refused only on a counter that read 256. */
  lemma CounterIsLiveSlots(strategy: PanicStrategy, steps: seq<Step>)
    ensures var s := Exec(Start(strategy), steps);
            && s.live == Held(s.connections)
            && s.live <= MAX_CONNECTIONS
            && (forall i | 0 <= i < |s.refusedAt| :: s.refusedAt[i] == MAX_CONNECTIONS)
  {
    RunsKeepInv(Start(strategy), steps);
  }

  lemma AcceptorMovesByOne(s: State, step: Step)
    requires Inv(s) && OfAcceptor(step)
    ensures -1 <= AcceptorStep(s, step).live as int - s.live as int <= 1
  {
    if s.acceptor.HasSlot? {
      HeldUpdate(s.connections, s.acceptor.connection, Closed(false, false));
    }
  }

  lemma ConnectionMovesByOne(s: State, step: Step, c: nat)
    requires Inv(s)
    ensures -1 <= ConnectionStep(s, step, c).live as int - s.live as int <= 1
  {
    if c < |s.connections| {
      HeldUpdate(s.connections, c, ConnectionStep(s, step, c).connections[c]);
    }
  }

  /** One step takes at most one slot and gives back at most one, and moves the counter by just
      that; so the decrement never finds the counter at zero. */
  lemma CounterMovesWithSlots(strategy: PanicStrategy, steps: seq<Step>, step: Step)
    ensures var s := Exec(Start(strategy), steps);
            var t := Next(s, step);
            && t.live as int - s.live as int == Held(t.connections) - Held(s.connections)
            && -1 <= t.live as int - s.live as int <= 1
  {
    RunsKeepInv(Start(strategy), steps);
    var s := Exec(Start(strategy), steps);
    StepsKeepInv(s, step);
    if OfAcceptor(step) {
      AcceptorMovesByOne(s, step);
    } else {
      ConnectionMovesByOne(s, step, step.c);
    }
  }

  /** A slot given back is never given back again. */
  lemma {:induction false} ReleasedOnce(s: State, steps: seq<Step>, c: nat)
    requires Inv(s) && c < |s.connections| && s.connections[c].Closed?
    ensures c < |Exec(s, steps).connections| && Exec(s, steps).connections[c].Closed?
  {
    if steps != [] {
      ReleasedOnce(s, steps[..|steps| - 1], c);
      RunsKeepInv(s, steps[..|steps| - 1]);
      ClosedStaysClosed(Exec(s, steps[..|steps| - 1]), steps[|steps| - 1], c);
    }
  }

  lemma ClosedStaysClosed(s: State, step: Step, c: nat)
    requires Inv(s) && c < |s.connections| && s.connections[c].Closed?
    ensures c < |Next(s, step).connections| && Next(s, step).connections[c].Closed?
  {
    assert s.acceptor != HasSlot(c);
  }

  // -------------------------------------------------------------------------------------------
  // Given back only after both directions

  predicate ReleasedEarly(s: State, c: nat) {
    c < |s.connections| && s.connections[c].Closed? && s.connections[c].early
  }

  /** Nothing unwinds, and no slot is given back while a direction runs. */
  predicate Orderly(s: State) {
    forall c | 0 <= c < |s.connections| ::
      !s.connections[c].Unwinding? && (s.connections[c].Closed? ==> s.connections[c] == Closed(false, false))
  }

  lemma AbortKeepsOrderly(s: State, step: Step)
    requires s.strategy == Abort && Orderly(s)
    ensures Next(s, step).strategy == Abort && Orderly(Next(s, step))
  {
  }

  lemma {:induction false} AbortIsOrderly(steps: seq<Step>)
    ensures Orderly(Exec(Start(Abort), steps)) && Exec(Start(Abort), steps).strategy == Abort
  {
    if steps != [] {
      var n := |steps| - 1;
      AbortIsOrderly(steps[..n]);
      AbortKeepsOrderly(Exec(Start(Abort), steps[..n]), steps[n]);
    }
  }

  /** What a run has seen of one connection: that pumping began, and which direction ended since. */
  datatype Seen = Seen(began: bool, inbound: bool, outbound: bool)

  function Sees(seen: Seen, s: State, step: Step, c: nat): Seen {
    if s.ended then seen
    else if step == PumpsStart(c) && c < |s.connections| && s.connections[c].Serving? then seen.(began := true)
    else if seen.began && EndsInbound(step, c) then seen.(inbound := true)
    else if seen.began && (step == OutboundEnds(c) || step == OutboundPanics(c)) then seen.(outbound := true)
    else seen
  }

  function SeenIn(strategy: PanicStrategy, steps: seq<Step>, c: nat): Seen {
    if steps == [] then Seen(false, false, false) else
    var n := |steps| - 1;
    Sees(SeenIn(strategy, steps[..n], c), Exec(Start(strategy), steps[..n]), steps[n], c)
  }

  /** The state of the connection is what the run has seen. */
  predicate Agrees(s: State, seen: Seen, c: nat) {
    s.ended ||
    if c >= |s.connections| then seen == Seen(false, false, false) else
    match s.connections[c]
    case Spawning => seen == Seen(false, false, false)
    case Serving => seen == Seen(false, false, false)
    case Pumping(inbound, outbound) => seen == Seen(true, !inbound, !outbound)
    case Leaving => seen == Seen(false, false, false) || seen == Seen(true, true, true)
    case Unwinding(inbound) => seen == Seen(true, !inbound, true)
    case Closed(early, _) => if early then seen.began && seen.outbound else seen.began ==> seen.inbound && seen.outbound
  }

  lemma AgreesAcceptorStep(s: State, seen: Seen, step: Step, c: nat)
    requires Inv(s) && Agrees(s, seen, c) && OfAcceptor(step)
    ensures Agrees(Next(s, step), seen, c)
  {
  }

  lemma AgreesOwnStep(s: State, seen: Seen, step: Step)
    requires Inv(s) && !OfAcceptor(step) && Agrees(s, seen, step.c)
    ensures Agrees(Next(s, step), Sees(seen, s, step, step.c), step.c)
  {
  }

  lemma AgreesStep(s: State, seen: Seen, step: Step, c: nat)
    requires Inv(s) && Agrees(s, seen, c)
    ensures Agrees(Next(s, step), Sees(seen, s, step, c), c)
  {
    if OfAcceptor(step) {
      AgreesAcceptorStep(s, seen, step, c);
    } else if step.c == c {
      AgreesOwnStep(s, seen, step);
    } else {
      ElsewhereStep(s, step, c);
    }
  }

  lemma ElsewhereStep(s: State, step: Step, c: nat)
    requires !OfAcceptor(step) && step.c != c
    ensures var t := Next(s, step);
            && |t.connections| == |s.connections|
            && (c < |s.connections| ==> t.connections[c] == s.connections[c])
            && (s.ended ==> t.ended)
  {
  }

  lemma {:induction false} RunsAgree(strategy: PanicStrategy, steps: seq<Step>, c: nat)
    ensures Agrees(Exec(Start(strategy), steps), SeenIn(strategy, steps, c), c)
  {
    if steps != [] {
      var n := |steps| - 1;
      RunsAgree(strategy, steps[..n], c);
      RunsKeepInv(Start(strategy), steps[..n]);
      AgreesStep(Exec(Start(strategy), steps[..n]), SeenIn(strategy, steps[..n], c), steps[n], c);
    }
  }

  /** The step gives back the slot of `c`. */
  predicate GivesBack(s: State, step: Step, c: nat) {
    && c < |s.connections| && HoldsSlot(s.connections[c])
    && c < |Next(s, step).connections| && Next(s, step).connections[c].Closed?
  }

  lemma GivesBackFrom(s: State, seen: Seen, step: Step, c: nat)
    requires Inv(s) && Agrees(s, seen, c) && GivesBack(s, step, c)
    ensures Next(s, step).connections[c].early <==> seen.began && !(seen.inbound && seen.outbound)
  {
  }

  /** A slot is recorded as given back early exactly when pumping had begun and a direction had not
      ended. */
  lemma EarlyIsWhatWasSeen(strategy: PanicStrategy, steps: seq<Step>, step: Step, c: nat)
    requires GivesBack(Exec(Start(strategy), steps), step, c)
    ensures var seen := SeenIn(strategy, steps, c);
            Next(Exec(Start(strategy), steps), step).connections[c].early <==>
              seen.began && !(seen.inbound && seen.outbound)
  {
    RunsAgree(strategy, steps, c);
    RunsKeepInv(Start(strategy), steps);
    GivesBackFrom(Exec(Start(strategy), steps), SeenIn(strategy, steps, c), step, c);
  }

  /** Where a panic ends the process, as in the release profile, a slot is given back only when no
      pumping had begun or both directions had ended. */
  lemma ReleasedAfterBothDirections(steps: seq<Step>, step: Step, c: nat)
    requires GivesBack(Exec(Start(Abort), steps), step, c)
    ensures var seen := SeenIn(Abort, steps, c); seen.began ==> seen.inbound && seen.outbound
  {
    EarlyIsWhatWasSeen(Abort, steps, step, c);
    AbortIsOrderly(steps);
    AbortKeepsOrderly(Exec(Start(Abort), steps), step);
  }

  /** The outbound pump panics, in a build that unwinds, while the inbound one runs. */
  predicate PanicsBeforeInbound(s: State, step: Step, c: nat) {
    step == OutboundPanics(c) && c < |s.connections| && s.connections[c] == Pumping(true, true)
  }

  predicate EndsInbound(step: Step, c: nat) {
    step == InboundEnds(c) || step == InboundPanics(c)
  }

  /** The outbound pump panicked at step `i`, and the slot was dropped at step `k` before the inbound
      pump ended. */
  predicate DroppedEarly(steps: seq<Step>, i: nat, k: nat, c: nat) {
    && i < k < |steps|
    && PanicsBeforeInbound(Exec(Start(Unwind), steps[..i]), steps[i], c)
    && steps[k] == DropSlot(c)
    && forall j | i < j < k :: !EndsInbound(steps[j], c)
  }

  lemma UnwindStep(s: State, step: Step)
    requires s.strategy == Unwind && !s.ended
    ensures Next(s, step).strategy == Unwind && !Next(s, step).ended
  {
  }

  lemma {:induction false} UnwindNeverEnds(steps: seq<Step>)
    ensures var s := Exec(Start(Unwind), steps); s.strategy == Unwind && !s.ended && Inv(s)
  {
    RunsKeepInv(Start(Unwind), steps);
    if steps != [] {
      var n := |steps| - 1;
      UnwindNeverEnds(steps[..n]);
      UnwindStep(Exec(Start(Unwind), steps[..n]), steps[n]);
    }
  }

  predicate LetGo(s: State, c: nat) {
    c < |s.connections| && (s.connections[c] == Unwinding(true) || ReleasedEarly(s, c))
  }

  /** From the panic until the inbound pump ends, or the slot is dropped. */
  lemma LetGoStays(s: State, step: Step, c: nat)
    requires Inv(s) && !s.ended && LetGo(s, c) && !EndsInbound(step, c)
    ensures LetGo(Next(s, step), c)
    ensures step == DropSlot(c) ==> ReleasedEarly(Next(s, step), c)
  {
  }

  lemma EarlyStays(s: State, step: Step, c: nat)
    requires Inv(s) && ReleasedEarly(s, c)
    ensures ReleasedEarly(Next(s, step), c)
  {
  }

  lemma PanicLetsGo(s: State, step: Step, c: nat)
    requires s.strategy == Unwind && !s.ended && PanicsBeforeInbound(s, step, c)
    ensures LetGo(Next(s, step), c)
  {
  }

  lemma PanicStep(steps: seq<Step>, i: nat, c: nat)
    requires i < |steps| && PanicsBeforeInbound(Exec(Start(Unwind), steps[..i]), steps[i], c)
    ensures LetGo(Exec(Start(Unwind), steps[..i + 1]), c)
  {
    UnwindNeverEnds(steps[..i]);
    assert steps[..i + 1][..i] == steps[..i];
    PanicLetsGo(Exec(Start(Unwind), steps[..i]), steps[i], c);
  }

  lemma LetGoStep(steps: seq<Step>, n: nat, c: nat)
    requires n < |steps| && LetGo(Exec(Start(Unwind), steps[..n]), c) && !EndsInbound(steps[n], c)
    ensures LetGo(Exec(Start(Unwind), steps[..n + 1]), c)
    ensures steps[n] == DropSlot(c) ==> ReleasedEarly(Exec(Start(Unwind), steps[..n + 1]), c)
  {
    UnwindNeverEnds(steps[..n]);
    assert steps[..n + 1][..n] == steps[..n];
    LetGoStays(Exec(Start(Unwind), steps[..n]), steps[n], c);
  }

  lemma {:induction false} LetGoUntil(steps: seq<Step>, i: nat, m: nat, c: nat)
    requires i < m <= |steps| && LetGo(Exec(Start(Unwind), steps[..i + 1]), c)
    requires forall j | i < j < m :: !EndsInbound(steps[j], c)
    ensures LetGo(Exec(Start(Unwind), steps[..m]), c)
  {
    if i + 1 < m {
      LetGoUntil(steps, i, m - 1, c);
      LetGoStep(steps, m - 1, c);
    }
  }

  lemma EarlyStep(steps: seq<Step>, n: nat, c: nat)
    requires n < |steps| && ReleasedEarly(Exec(Start(Unwind), steps[..n]), c)
    ensures ReleasedEarly(Exec(Start(Unwind), steps[..n + 1]), c)
  {
    UnwindNeverEnds(steps[..n]);
    assert steps[..n + 1][..n] == steps[..n];
    EarlyStays(Exec(Start(Unwind), steps[..n]), steps[n], c);
  }

  lemma {:induction false} EarlyFrom(steps: seq<Step>, m: nat, n: nat, c: nat)
    requires m <= n <= |steps| && ReleasedEarly(Exec(Start(Unwind), steps[..m]), c)
    ensures ReleasedEarly(Exec(Start(Unwind), steps[..n]), c)
  {
    if m < n {
      EarlyFrom(steps, m, n - 1, c);
      EarlyStep(steps, n - 1, c);
    }
  }

  lemma DroppedMeansEarly(steps: seq<Step>, i: nat, k: nat, c: nat)
    requires DroppedEarly(steps, i, k, c)
    ensures ReleasedEarly(Exec(Start(Unwind), steps), c)
  {
    PanicStep(steps, i, c);
    LetGoUntil(steps, i, k, c);
    LetGoStep(steps, k, c);
    EarlyFrom(steps, k + 1, |steps|, c);
    assert steps[..|steps|] == steps;
  }

  predicate AtUnwinding(s: State, c: nat) {
    c < |s.connections| && s.connections[c] == Unwinding(true)
  }

  lemma UnwindingComesFrom(s: State, step: Step, c: nat)
    requires Inv(s) && s.strategy == Unwind && !s.ended && AtUnwinding(Next(s, step), c)
    ensures PanicsBeforeInbound(s, step, c) || (AtUnwinding(s, c) && !EndsInbound(step, c))
  {
  }

  lemma EarlyComesFrom(s: State, step: Step, c: nat)
    requires Inv(s) && ReleasedEarly(Next(s, step), c)
    ensures ReleasedEarly(s, c) || (AtUnwinding(s, c) && step == DropSlot(c))
  {
  }

  lemma UnwindingBefore(steps: seq<Step>, m: nat, c: nat)
    requires 0 < m <= |steps| && AtUnwinding(Exec(Start(Unwind), steps[..m]), c)
    ensures var s := Exec(Start(Unwind), steps[..m - 1]);
            PanicsBeforeInbound(s, steps[m - 1], c) || (AtUnwinding(s, c) && !EndsInbound(steps[m - 1], c))
  {
    assert steps[..m][..m - 1] == steps[..m - 1];
    UnwindNeverEnds(steps[..m - 1]);
    UnwindingComesFrom(Exec(Start(Unwind), steps[..m - 1]), steps[m - 1], c);
  }

  lemma {:induction false} UnwindingHasCause(steps: seq<Step>, m: nat, c: nat) returns (i: nat)
    requires m <= |steps| && AtUnwinding(Exec(Start(Unwind), steps[..m]), c)
    ensures i < m && PanicsBeforeInbound(Exec(Start(Unwind), steps[..i]), steps[i], c)
    ensures forall j | i < j < m :: !EndsInbound(steps[j], c)
  {
    assert m > 0;
    UnwindingBefore(steps, m, c);
    if PanicsBeforeInbound(Exec(Start(Unwind), steps[..m - 1]), steps[m - 1], c) {
      i := m - 1;
    } else {
      i := UnwindingHasCause(steps, m - 1, c);
    }
  }

  lemma {:induction false} EarlyHasCause(steps: seq<Step>, m: nat, c: nat) returns (i: nat, k: nat)
    requires m <= |steps| && ReleasedEarly(Exec(Start(Unwind), steps[..m]), c)
    ensures DroppedEarly(steps, i, k, c)
  {
    assert m > 0;
    assert steps[..m][..m - 1] == steps[..m - 1];
    var s := Exec(Start(Unwind), steps[..m - 1]);
    UnwindNeverEnds(steps[..m - 1]);
    EarlyComesFrom(s, steps[m - 1], c);
    if ReleasedEarly(s, c) {
      i, k := EarlyHasCause(steps, m - 1, c);
    } else {
      i := UnwindingHasCause(steps, m - 1, c);
      k := m - 1;
    }
  }

  /** Where a panic unwinds, a slot is given back while a direction still runs exactly when the
      outbound pump panicked and the slot was dropped before the inbound pump ended. */
  lemma ReleasedEarlyExactlyWhen(steps: seq<Step>, c: nat)
    ensures ReleasedEarly(Exec(Start(Unwind), steps), c) <==> exists i, k :: DroppedEarly(steps, i, k, c)
  {
    if ReleasedEarly(Exec(Start(Unwind), steps), c) {
      assert steps[..|steps|] == steps;
      var i, k := EarlyHasCause(steps, |steps|, c);
    }
    if i: nat, k: nat :| DroppedEarly(steps, i, k, c) {
      DroppedMeansEarly(steps, i, k, c);
    }
  }

  /** There are such runs. */
  lemma UnwindingReleasesEarly() returns (steps: seq<Step>)
    ensures ReleasedEarly(Exec(Start(Unwind), steps), 0)
  {
    var a := [Load, CompareAndSwap(false), SpawnOk, PumpsStart(0)];
    steps := a + [OutboundPanics(0), DropSlot(0)];
    assert a[..4] == a && a[..3][..2] == a[..2] && a[..2][..1] == a[..1] && a[..1][..0] == [];
    assert Exec(Start(Unwind), a[..1]) == Start(Unwind).(acceptor := Loaded(0));
    assert Exec(Start(Unwind), a[..2]) == Start(Unwind).(live := 1, acceptor := HasSlot(0), connections := [Spawning]);
    assert Exec(Start(Unwind), a[..3]) == Start(Unwind).(live := 1, connections := [Serving]);
    assert Exec(Start(Unwind), a) == Start(Unwind).(live := 1, connections := [Pumping(true, true)]);
    assert steps[..4] == a;
    assert DroppedEarly(steps, 4, 5, 0);
    DroppedMeansEarly(steps, 4, 5, 0);
  }

  // -------------------------------------------------------------------------------------------
  // Given back at all

  /** At most so many steps of its own threads, and of the spawn, are left to a connection. */
  function Owed(c: Connection): nat {
    match c
    case Spawning => 6
    case Serving => 5
    case Pumping(inbound, outbound) => 2 + (if inbound then 1 else 0) + (if outbound then 1 else 0)
    case Leaving => 1
    case Unwinding(_) => 1
    case Closed(_, _) => 0
  }

  /** A step that takes the connection on, and that can be taken now. */
  predicate OwnStep(s: State, step: Step, c: nat) {
    && !s.ended && c < |s.connections|
    && match s.connections[c]
       case Spawning => s.acceptor == HasSlot(c) && (step.SpawnOk? || step.SpawnFails?)
       case Serving => step == ServeFails(c) || step == PumpsStart(c)
       case Pumping(inbound, outbound) =>
         || (inbound && (step == InboundEnds(c) || (step == InboundPanics(c) && s.strategy == Unwind)))
         || (outbound && (step == OutboundEnds(c) || (step == OutboundPanics(c) && s.strategy == Unwind)))
         || (!inbound && !outbound && step == Join(c))
       case Leaving => step == DropSlot(c)
       case Unwinding(_) => step == DropSlot(c)
       case Closed(_, _) => false
  }

  function OwnSteps(s: State, steps: seq<Step>, c: nat): nat {
    if steps == [] then 0 else
    var n := |steps| - 1;
    OwnSteps(s, steps[..n], c) + if OwnStep(Exec(s, steps[..n]), steps[n], c) then 1 else 0
  }

  lemma OwnStepsCount(s: State, step: Step, c: nat)
    requires Inv(s) && OwnStep(s, step, c)
    ensures c < |Next(s, step).connections| && Owed(Next(s, step).connections[c]) < Owed(s.connections[c])
  {
  }

  lemma OtherStepsDoNot(s: State, step: Step, c: nat)
    requires Inv(s) && c < |s.connections| && !OwnStep(s, step, c)
    ensures c < |Next(s, step).connections| && Owed(Next(s, step).connections[c]) == Owed(s.connections[c])
  {
  }

  lemma {:induction false} OwedRunsDown(s: State, steps: seq<Step>, c: nat)
    requires Inv(s) && c < |s.connections|
    ensures c < |Exec(s, steps).connections|
    ensures Owed(Exec(s, steps).connections[c]) + OwnSteps(s, steps, c) <= Owed(s.connections[c])
  {
    if steps != [] {
      var n := |steps| - 1;
      OwedRunsDown(s, steps[..n], c);
      RunsKeepInv(s, steps[..n]);
      var t := Exec(s, steps[..n]);
      if OwnStep(t, steps[n], c) {
        OwnStepsCount(t, steps[n], c);
      } else {
        OtherStepsDoNot(t, steps[n], c);
      }
    }
  }

  lemma NextOwnStep(s: State, c: nat) returns (step: Step)
    requires Inv(s) && c < |s.connections| && HoldsSlot(s.connections[c]) && !s.ended
    ensures OwnStep(s, step, c)
  {
    match s.connections[c]
    case Spawning => step := SpawnOk;
    case Serving => step := ServeFails(c);
    case Pumping(inbound, outbound) =>
      step := if inbound then InboundEnds(c) else if outbound then OutboundEnds(c) else Join(c);
    case Leaving => step := DropSlot(c);
    case Unwinding(_) => step := DropSlot(c);
  }

  /** Every slot taken comes back: whatever the other threads do, the connection can always be taken
      on until its slot is back, and that is so after at most six steps of its own. */
  lemma SlotComesBack(s: State, steps: seq<Step>, c: nat)
    requires Inv(s) && c < |s.connections|
    ensures var t := Exec(s, steps);
            && c < |t.connections|
            && OwnSteps(s, steps, c) <= Owed(s.connections[c]) <= 6
            && (OwnSteps(s, steps, c) == Owed(s.connections[c]) ==> t.connections[c].Closed?)
            && (!t.connections[c].Closed? && !t.ended ==> exists step :: OwnStep(t, step, c))
  {
    OwedRunsDown(s, steps, c);
    RunsKeepInv(s, steps);
    var t := Exec(s, steps);
    if !t.connections[c].Closed? && !t.ended {
      var step := NextOwnStep(t, c);
    }
  }

  /** The drop gives back just this slot. */
  lemma DropGivesBack(s: State, c: nat)
    requires Inv(s) && OwnStep(s, DropSlot(c), c)
    ensures var t := Next(s, DropSlot(c));
            && t.live == s.live as int - 1 && t.connections[c].Closed?
            && t == s.(live := t.live, connections := s.connections[c := t.connections[c]])
  {
    HeldUpdate(s.connections, c, Closed(false, false));
  }

  predicate AtLeaving(s: State, c: nat) {
    c < |s.connections| && (s.connections[c] == Leaving || s.connections[c] == Closed(false, false))
  }

  lemma LeavingStep(s: State, step: Step, c: nat)
    requires Inv(s) && AtLeaving(s, c)
    ensures AtLeaving(Next(s, step), c)
    ensures s.connections[c].Leaving? ==> (Next(s, step).connections[c].Closed? <==> OwnStep(s, step, c))
    ensures s.connections[c].Closed? ==> Next(s, step).connections[c].Closed? && !OwnStep(s, step, c)
  {
  }

  lemma {:induction false} LeavingRuns(s: State, steps: seq<Step>, c: nat)
    requires Inv(s) && AtLeaving(s, c) && s.connections[c].Leaving?
    ensures AtLeaving(Exec(s, steps), c) && OwnSteps(s, steps, c) <= 1
    ensures Exec(s, steps).connections[c].Closed? <==> OwnSteps(s, steps, c) == 1
  {
    if steps != [] {
      var n := |steps| - 1;
      LeavingRuns(s, steps[..n], c);
      RunsKeepInv(s, steps[..n]);
      LeavingStep(Exec(s, steps[..n]), steps[n], c);
    }
  }

  /** When `serve` fails before any pumping, or returns after both pumps, exactly one drop is left:
      until it happens it can, whatever the other threads do, and it gives the slot back. */
  lemma LeavingGivesBack(s: State, steps: seq<Step>, c: nat)
    requires Inv(s) && c < |s.connections| && s.connections[c] == Leaving
    ensures var t := Exec(s, steps);
            && AtLeaving(t, c) && OwnSteps(s, steps, c) <= 1
            && (t.connections[c].Closed? <==> OwnSteps(s, steps, c) == 1)
            && (!t.connections[c].Closed? && !t.ended ==>
                  && OwnStep(t, DropSlot(c), c)
                  && Next(t, DropSlot(c)).live == t.live as int - 1
                  && Next(t, DropSlot(c)).connections[c] == Closed(false, false))
  {
    LeavingRuns(s, steps, c);
    RunsKeepInv(s, steps);
    var t := Exec(s, steps);
    if !t.connections[c].Closed? && !t.ended {
      DropGivesBack(t, c);
    }
  }

  /** A client whose upstream cannot be reached: its slot comes back by that one drop. */
  lemma FailedServeGivesBack(s: State, steps: seq<Step>, c: nat)
    requires Inv(s) && !s.ended && c < |s.connections| && s.connections[c] == Serving
    ensures var u := Next(s, ServeFails(c));
            var t := Exec(u, steps);
            && u.live == s.live && u.connections == s.connections[c := Leaving]
            && AtLeaving(t, c) && OwnSteps(u, steps, c) <= 1
            && (t.connections[c].Closed? <==> OwnSteps(u, steps, c) == 1)
            && (!t.connections[c].Closed? && !t.ended ==>
                  OwnStep(t, DropSlot(c), c) && Next(t, DropSlot(c)).live == t.live as int - 1)
  {
    StepsKeepInv(s, ServeFails(c));
    LeavingGivesBack(Next(s, ServeFails(c)), steps, c);
  }

  predicate Served(s: State, c: nat) {
    c < |s.connections| && !s.connections[c].Spawning? && !s.connections[c].Serving?
  }

  predicate InboundOver(s: State, c: nat) {
    s.ended || (Served(s, c) && (s.connections[c].Pumping? ==> !s.connections[c].inbound))
  }

  predicate OutboundOver(s: State, c: nat) {
    s.ended || (Served(s, c) && (s.connections[c].Pumping? ==> !s.connections[c].outbound))
  }

  lemma OverStep(s: State, step: Step, c: nat)
    requires Inv(s) && Served(s, c)
    ensures Served(Next(s, step), c)
    ensures InboundOver(s, c) || step == InboundEnds(c) ==> InboundOver(Next(s, step), c)
    ensures OutboundOver(s, c) || step == OutboundEnds(c) ==> OutboundOver(Next(s, step), c)
  {
  }

  lemma {:induction false} OverRuns(s: State, steps: seq<Step>, c: nat)
    requires Inv(s) && Served(s, c)
    ensures Served(Exec(s, steps), c)
    ensures InboundEnds(c) in steps ==> InboundOver(Exec(s, steps), c)
    ensures OutboundEnds(c) in steps ==> OutboundOver(Exec(s, steps), c)
  {
    if steps != [] {
      var n := |steps| - 1;
      assert steps == steps[..n] + [steps[n]];
      OverRuns(s, steps[..n], c);
      RunsKeepInv(s, steps[..n]);
      OverStep(Exec(s, steps[..n]), steps[n], c);
    }
  }

  /** After the pumps have started, a run in which both of them end leaves at most the join and the
      drop to do. */
  lemma PumpedGivesBack(s: State, steps: seq<Step>, c: nat)
    requires Inv(s) && !s.ended && c < |s.connections| && s.connections[c] == Serving
    requires InboundEnds(c) in steps && OutboundEnds(c) in steps
    ensures var u := Next(s, PumpsStart(c));
            var t := Exec(u, steps);
            && u == s.(connections := s.connections[c := Pumping(true, true)])
            && c < |t.connections| && (t.ended || Owed(t.connections[c]) <= 2)
  {
    StepsKeepInv(s, PumpsStart(c));
    OverRuns(Next(s, PumpsStart(c)), steps, c);
  }
}
