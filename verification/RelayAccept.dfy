/** The relay's accept thread (crates/ward-agent/src/relay.rs), whose every run is a run of the step
    system. */
module RelayAccept {
  import opened Wrappers
  import opened Relay

  lemma {:induction false} ExecConcat(s: State, a: seq<Step>, b: seq<Step>)
    ensures Exec(s, a + b) == Exec(Exec(s, a), b)
  {
    if b == [] {
      assert a + b == a;
    } else {
      assert (a + b)[..|a + b| - 1] == a + b[..|b| - 1];
      ExecConcat(s, a, b[..|b| - 1]);
    }
  }

  lemma ConnectionsLeaveTheRest(s: State, step: Step)
    requires !OfAcceptor(step)
    ensures var t := Next(s, step);
            t.acceptor == s.acceptor && t.refusedAt == s.refusedAt && |t.connections| == |s.connections|
  {
  }

  /** What the connections do before the accept thread's next atomic operation, and whether that
      operation, if a compare-and-swap, fails without cause. */
  datatype Turn = Turn(others: seq<Step>, spurious: bool)

  predicate ByConnections(turns: seq<Turn>) {
    forall turn | turn in turns :: forall step | step in turn.others :: !OfAcceptor(step)
  }

  /** The spawn outcomes in a run, in order. */
  function Spawns(trace: seq<Step>): seq<bool> {
    if trace == [] then [] else
    var last := trace[|trace| - 1];
    Spawns(trace[..|trace| - 1]) + if last.SpawnOk? then [true] else if last.SpawnFails? then [false] else []
  }

  lemma {:induction false} SpawnsConcat(a: seq<Step>, b: seq<Step>)
    ensures Spawns(a + b) == Spawns(a) + Spawns(b)
  {
    if b == [] {
      assert a + b == a;
    } else {
      assert (a + b)[..|a + b| - 1] == a + b[..|b| - 1];
      SpawnsConcat(a, b[..|b| - 1]);
    }
  }

  lemma {:induction false} NoSpawns(trace: seq<Step>)
    requires forall step | step in trace :: !step.SpawnOk? && !step.SpawnFails?
    ensures Spawns(trace) == []
  {
    if trace != [] {
      NoSpawns(trace[..|trace| - 1]);
    }
  }

  lemma OneSpawn(outcome: Step)
    requires outcome.SpawnOk? || outcome.SpawnFails?
    ensures Spawns([outcome]) == [outcome.SpawnOk?]
  {
    assert [outcome][..0] == [];
  }

  /** The values at the positions marked. */
  function Selected(values: seq<bool>, marked: seq<bool>): seq<bool>
    requires |values| == |marked|
  {
    if marked == [] then [] else
    var n := |marked| - 1;
    Selected(values[..n], marked[..n]) + if marked[n] then [values[n]] else []
  }

  lemma SelectedOneMore(values: seq<bool>, marked: seq<bool>, mark: bool)
    requires |marked| < |values|
    ensures Selected(values[..|marked| + 1], marked + [mark]) ==
              Selected(values[..|marked|], marked) + if mark then [values[|marked|]] else []
  {
    var n := |marked|;
    assert values[..n + 1][..n] == values[..n] && (marked + [mark])[..n] == marked;
  }

  lemma SwapOutcome(s: State, spurious: bool)
    requires Inv(s) && s.acceptor.Loaded?
    ensures var t := Next(s, CompareAndSwap(spurious));
            && t.ended == s.ended
            && t.refusedAt == s.refusedAt + (if t.acceptor.Accepting? then [MAX_CONNECTIONS] else [])
            && |t.connections| == |s.connections| + (if t.acceptor.HasSlot? then 1 else 0)
            && (t.acceptor.Loaded? && !t.ended ==> t.acceptor.previous == t.live)
            && (t.acceptor.Loaded? && !t.ended && !spurious ==> s.acceptor.previous != s.live)
            && (t.ended ==> t.acceptor.Loaded?)
  {
  }

  lemma AfterSwap(s: State, trace: seq<Step>, spurious: bool)
    ensures Exec(s, trace + [CompareAndSwap(spurious)]) == Next(Exec(s, trace), CompareAndSwap(spurious))
    ensures Spawns(trace + [CompareAndSwap(spurious)]) == Spawns(trace)
  {
    assert (trace + [CompareAndSwap(spurious)])[..|trace|] == trace;
  }

  class AcceptThread {
    var s: State

    constructor (strategy: PanicStrategy)
      ensures s == Start(strategy)
    {
      s := Start(strategy);
    }

    method Interfere(others: seq<Step>) returns (ghost trace: seq<Step>)
      requires forall step | step in others :: !OfAcceptor(step)
      modifies this
      ensures s == Exec(old(s), trace) && trace == others && |s.connections| == |old(s.connections)|
      ensures Spawns(trace) == []
      ensures s.acceptor == old(s.acceptor) && s.refusedAt == old(s.refusedAt)
    {
      trace := [];
      for i := 0 to |others|
        invariant s == Exec(old(s), trace) && trace == others[..i] && |s.connections| == |old(s.connections)|
        invariant s.acceptor == old(s.acceptor) && s.refusedAt == old(s.refusedAt)
      {
        ConnectionsLeaveTheRest(s, others[i]);
        assert (trace + [others[i]])[..i] == trace;
        trace := trace + [others[i]];
        s := Next(s, others[i]);
      }
      assert trace == others;
      NoSpawns(trace);
    }

    /** What the connections do in the meantime. */
    method OthersFirst(turns: seq<Turn>) returns (spurious: bool, rest: seq<Turn>, ghost trace: seq<Step>)
      requires Inv(s) && ByConnections(turns)
      modifies this
      ensures Inv(s) && s == Exec(old(s), trace) && ByConnections(rest) && Spawns(trace) == []
      ensures s.acceptor == old(s.acceptor) && s.refusedAt == old(s.refusedAt)
      ensures |s.connections| == |old(s.connections)|
      ensures if turns == [] then rest == [] && !spurious && s == old(s) else |rest| < |turns|
    {
      spurious, rest, trace := false, turns, [];
      if turns != [] {
        assert turns[0] in turns;
        trace := Interfere(turns[0].others);
        spurious, rest := turns[0].spurious, turns[1..];
      }
      RunsKeepInv(old(s), trace);
    }

    /** One turn of `Slot::take`'s loop: the connections move, then the swap is tried. */
    method TrySwap(turns: seq<Turn>) returns (rest: seq<Turn>, ghost trace: seq<Step>)
      requires Inv(s) && s.acceptor.Loaded? && !s.ended && ByConnections(turns)
      modifies this
      ensures Inv(s) && s == Exec(old(s), trace) && ByConnections(rest)
      ensures s.refusedAt == old(s.refusedAt) + (if s.acceptor.Accepting? then [MAX_CONNECTIONS] else [])
      ensures |s.connections| == |old(s.connections)| + (if s.acceptor.HasSlot? then 1 else 0)
      ensures if turns == [] then rest == [] else |rest| < |turns|
      ensures Spawns(trace) == []
      ensures s.acceptor.Loaded? && !s.ended ==> s.acceptor.previous == s.live
      ensures s.ended ==> s.acceptor.Loaded?
      ensures turns == [] && s.acceptor.Loaded? && !s.ended ==> old(s.acceptor.previous) != old(s.live)
    {
      var spurious := false;
      spurious, rest, trace := OthersFirst(turns);
      SwapOutcome(s, spurious);
      StepsKeepInv(s, CompareAndSwap(spurious));
      AfterSwap(old(s), trace, spurious);
      trace := trace + [CompareAndSwap(spurious)];
      s := Next(s, CompareAndSwap(spurious));
    }

    /** `Slot::take`: read, then compare-and-swap until it succeeds or the counter is full. */
    method Take(turns: seq<Turn>) returns (slot: Option<nat>, rest: seq<Turn>, ghost trace: seq<Step>)
      requires Inv(s) && s.acceptor.Accepting? && !s.ended && ByConnections(turns)
      modifies this
      ensures Inv(s) && s == Exec(old(s), trace) && ByConnections(rest)
      ensures slot.Some? ==> s.acceptor == HasSlot(slot.value) && s.refusedAt == old(s.refusedAt)
      ensures slot.None? && !s.ended ==> s.acceptor == Accepting && s.refusedAt == old(s.refusedAt) + [MAX_CONNECTIONS]
      ensures slot.Some? ==> !s.ended
      ensures Spawns(trace) == []
      ensures |s.connections| == |old(s.connections)| + (if slot.Some? then 1 else 0)
    {
      trace, rest := [Load], turns;
      assert trace[..0] == [];
      StepsKeepInv(s, Load);
      s := Next(s, Load);
      while s.acceptor.Loaded? && !s.ended
        invariant Inv(s) && s == Exec(old(s), trace) && ByConnections(rest)
        invariant s.refusedAt == old(s.refusedAt) + (if s.acceptor.Accepting? then [MAX_CONNECTIONS] else [])
        invariant |s.connections| == |old(s.connections)| + (if s.acceptor.HasSlot? then 1 else 0)
        invariant s.ended ==> s.acceptor.Loaded?
        invariant Spawns(trace) == []
        decreases |rest|, if s.ended || !s.acceptor.Loaded? then 0 else if s.acceptor.previous == s.live then 1 else 2
      {
        ghost var more;
        rest, more := TrySwap(rest);
        ExecConcat(old(s), trace, more);
        SpawnsConcat(trace, more);
        trace := trace + more;
      }
      slot := if s.acceptor.HasSlot? then Some(s.acceptor.connection) else None;
    }

    /** One client: a slot, if there is one, and a thread, if it can be spawned. */
    method Accept(spawned: bool, turns: seq<Turn>) returns (got: bool, rest: seq<Turn>, ghost trace: seq<Step>)
      requires Inv(s) && s.acceptor.Accepting? && !s.ended && ByConnections(turns)
      modifies this
      ensures Inv(s) && s == Exec(old(s), trace) && ByConnections(rest)
      ensures Spawns(trace) == if got then [spawned] else []
      ensures !s.ended ==> s.acceptor == Accepting
      ensures !s.ended && got ==>
                |s.connections| == |old(s.connections)| + 1 && s.refusedAt == old(s.refusedAt)
      ensures !s.ended && !got ==>
                |s.connections| == |old(s.connections)| && s.refusedAt == old(s.refusedAt) + [MAX_CONNECTIONS]
      ensures got ==> !s.ended
    {
      var slot;
      slot, rest, trace := Take(turns);
      got := slot.Some?;
      if got {
        var outcome := if spawned then SpawnOk else SpawnFails;
        StepsKeepInv(s, outcome);
        SpawnsConcat(trace, [outcome]);
        OneSpawn(outcome);
        assert (trace + [outcome])[..|trace|] == trace;
        trace := trace + [outcome];
        s := Next(s, outcome);
      }
    }

    /** `accept_loop` over the clients that arrive, with the outcome of each thread spawn, until a
        panic ends the process; `served` says which clients got a slot. */
    method AcceptLoop(spawns: seq<bool>, turns: seq<Turn>) returns (served: seq<bool>, ghost trace: seq<Step>)
      requires s == Start(s.strategy) && ByConnections(turns)
      modifies this
      ensures s == Exec(old(s), trace) && Inv(s)
      ensures |served| <= |spawns| && Spawns(trace) == Selected(spawns[..|served|], served)
      ensures !s.ended ==> |served| == |spawns| && s.acceptor == Accepting
      ensures !s.ended ==> |s.connections| + |s.refusedAt| == |spawns|
      ensures !s.ended ==> |s.connections| == |Spawns(trace)|
    {
      trace, served := [], [];
      var rest := turns;
      for i := 0 to |spawns|
        invariant s == Exec(old(s), trace) && Inv(s) && ByConnections(rest)
        invariant |served| <= i && Spawns(trace) == Selected(spawns[..|served|], served)
        invariant !s.ended ==> |served| == i && s.acceptor == Accepting
        invariant !s.ended ==> |s.connections| + |s.refusedAt| == i && |s.connections| == |Spawns(trace)|
      {
        if s.ended {
          break;
        }
        ghost var more;
        var got;
        got, rest, more := Accept(spawns[i], rest);
        ExecConcat(old(s), trace, more);
        SpawnsConcat(trace, more);
        SelectedOneMore(spawns, served, got);
        trace, served := trace + more, served + [got];
      }
    }
  }
}
