/** The PID 1 supervisor against a small kernel (crates/ward-agent/src/supervise.rs).

    The kernel keeps the supervisor's children (its own and adopted orphans, running or zombie)
    and the set of pending blocked signals: a set, so signals coalesce. Environment events may
    fall between any two system calls. A run is any interleaving, written as a list of steps;
    a step that is not enabled changes nothing. */
module Supervisor {
  import opened Wrappers

  type Pid = nat

  datatype Signal = SIGCHLD | SIGTERM | SIGINT | SIGHUP

  datatype Status = Exited(code: int) | Signaled(signal: nat)

  /** `main` marks the process the supervisor spawned; the kernel never shows it to the code. */
  datatype Process = Running(main: bool) | Zombie(main: bool, status: Status)

  datatype Kernel = Kernel(children: map<Pid, Process>, pending: set<Signal>)

  /** Where the supervisor is: in `sigwait`, about to forward a signal, inside `reap` with the exit
      seen so far, or out of `run`. */
  datatype Phase =
    | Waiting
    | Forwarding(signal: Signal)
    | Reaping(exit: Option<int>)
    | Returned(code: int)
    | Failed

  /** A forwarded signal and the process it reached. */
  datatype Delivery = Delivery(signal: Signal, to: Option<Process>)

  /** `died`, `reaped` and `reached` are history: how the main child ended, whether it has been
      waited for, and what was forwarded. */
  datatype State = State(
    kernel: Kernel, phase: Phase, died: Option<Status>, reaped: bool, reached: seq<Delivery>)

  datatype Event =
    | Adopt(pid: Pid)                  // an orphan is reparented to PID 1
    | Exit(gone: Pid, status: Status)  // a child ends and SIGCHLD becomes pending
    | Raise(signal: Signal)            // any blocked signal arrives, SIGCHLD included

  datatype Step =
    | Env(event: Event)
    | SigWait(signal: Signal)
    | Forward
    | WaitPid(pid: Pid)
    | WaitNone
    | SysError

  function SignalExitCode(signal: nat): int {
    128 + signal
  }

  function ExitCode(status: Status): int {
    match status
    case Exited(code) => code
    case Signaled(signal) => SignalExitCode(signal)
  }

  predicate Zombies(k: Kernel, pid: Pid) {
    pid in k.children && k.children[pid].Zombie?
  }

  function ZombiePids(k: Kernel): set<Pid> {
    set pid | pid in k.children && k.children[pid].Zombie?
  }

  predicate Finished(s: State) {
    s.phase.Returned? || s.phase.Failed?
  }

  /** The kernel's side. A pid is free again once its zombie has been waited for. */
  function Happen(s: State, event: Event): State {
    var k := s.kernel;
    match event
    case Adopt(pid) =>
      if pid in k.children then s else s.(kernel := k.(children := k.children[pid := Running(false)]))
    case Exit(pid, status) =>
      if pid in k.children && k.children[pid].Running? then
        var main := k.children[pid].main;
        s.(kernel := Kernel(k.children[pid := Zombie(main, status)], k.pending + {SIGCHLD}),
           died := if main then Some(status) else s.died)
      else s
    case Raise(signal) => s.(kernel := k.(pending := k.pending + {signal}))
  }

  /** A step the supervisor can take now. */
  predicate Enabled(s: State, step: Step) {
    match step
    case Env(_) => false
    case SigWait(signal) => s.phase.Waiting? && signal in s.kernel.pending
    case Forward => s.phase.Forwarding?
    case WaitPid(pid) => s.phase.Reaping? && Zombies(s.kernel, pid)
    case WaitNone => s.phase.Reaping? && ZombiePids(s.kernel) == {}
    case SysError => !Finished(s)
  }

  function Next(s: State, child: Pid, step: Step): State {
    if step.Env? then Happen(s, step.event)
    else if !Enabled(s, step) then s
    else
      var k := s.kernel;
      match step
      case SigWait(signal) =>
        s.(kernel := k.(pending := k.pending - {signal}),
           phase := if signal == SIGCHLD then Reaping(None) else Forwarding(signal))
      case Forward =>
        // kill(child, signal): ESRCH when no process has that pid.
        s.(phase := Waiting,
           reached := s.reached
                      + [Delivery(s.phase.signal, if child in k.children then Some(k.children[child]) else None)])
      case WaitPid(pid) =>
        var gone := k.children[pid];
        s.(kernel := k.(children := k.children - {pid}),
           phase := if pid == child then Reaping(Some(ExitCode(gone.status))) else s.phase,
           reaped := s.reaped || gone.main)
      case WaitNone =>
        s.(phase := if s.phase.exit.Some? then Returned(s.phase.exit.value) else Waiting)
      case SysError => s.(phase := Failed)
  }

  function Exec(s: State, child: Pid, steps: seq<Step>): State {
    if steps == [] then s
    else Next(Exec(s, child, steps[..|steps| - 1]), child, steps[|steps| - 1])
  }

  /** Just after `spawn`: the signals were blocked before, so any of them may already be pending. */
  predicate Started(s: State, child: Pid) {
    && child in s.kernel.children && s.kernel.children[child] == Running(true)
    && (forall pid | pid in s.kernel.children && pid != child :: s.kernel.children[pid] == Running(false))
    && s.phase == Waiting && s.died.None? && !s.reaped && s.reached == []
  }

  // -------------------------------------------------------------------------------------------
  // The invariant

  /** A zombie waits only while a wake-up is due or the supervisor is draining. */
  predicate WakeUpDue(s: State) {
    ZombiePids(s.kernel) != {} ==> SIGCHLD in s.kernel.pending || s.phase.Reaping? || Finished(s)
  }

  predicate MainTracked(s: State, child: Pid) {
    && (forall pid | pid in s.kernel.children && s.kernel.children[pid].main :: pid == child && !s.reaped)
    && (!s.reaped ==> child in s.kernel.children && s.kernel.children[child].main)
    && (!s.reaped && s.kernel.children[child].Zombie? ==> s.died == Some(s.kernel.children[child].status))
    && (!s.reaped && s.kernel.children[child].Running? ==> s.died.None?)
    && (s.reaped ==> s.died.Some?)
  }

  /** Once the main child has been waited for, the supervisor is on its way out. */
  predicate ExitSeen(s: State) {
    && (s.reaped ==> Finished(s) || (s.phase.Reaping? && s.phase.exit.Some?))
    && (s.phase.Returned? || (s.phase.Reaping? && s.phase.exit.Some?) ==> s.reaped)
  }

  predicate ReachedMain(s: State) {
    forall i | 0 <= i < |s.reached| :: s.reached[i].to.Some? && s.reached[i].to.value.main
  }

  predicate Inv(s: State, child: Pid) {
    WakeUpDue(s) && MainTracked(s, child) && ExitSeen(s) && ReachedMain(s)
  }

  lemma EventsKeepInv(s: State, child: Pid, event: Event)
    requires Inv(s, child)
    ensures Inv(Happen(s, event), child)
  {
    var t := Happen(s, event);
    if event.Exit? {
    } else {
      forall pid | pid in ZombiePids(t.kernel) ensures pid in ZombiePids(s.kernel) {}
    }
  }

  lemma StepsKeepInv(s: State, child: Pid, step: Step)
    requires Inv(s, child)
    ensures Inv(Next(s, child, step), child)
  {
    if step.Env? {
      EventsKeepInv(s, child, step.event);
    }
  }

  lemma {:induction false} RunsKeepInv(s: State, child: Pid, steps: seq<Step>)
    requires Inv(s, child)
    ensures Inv(Exec(s, child, steps), child)
  {
    if steps != [] {
      RunsKeepInv(s, child, steps[..|steps| - 1]);
      StepsKeepInv(Exec(s, child, steps[..|steps| - 1]), child, steps[|steps| - 1]);
    }
  }

  lemma StartedMeansInv(s: State, child: Pid)
    requires Started(s, child)
    ensures Inv(s, child)
  {
    assert ZombiePids(s.kernel) == {};
  }

  // -------------------------------------------------------------------------------------------
  // Every interleaving

  /** No wake-up is lost: in every interleaving an unreaped zombie means that SIGCHLD is pending or
      `reap` is running; so a supervisor with nothing to wake it is waiting for a live child.
      Every forwarded signal reached the main child, alive or zombie: never another process, and
      never an empty pid. */
  lemma NoWakeUpIsLost(s: State, child: Pid, steps: seq<Step>)
    requires Started(s, child)
    ensures var t := Exec(s, child, steps);
            && WakeUpDue(t)
            && (t.phase == Waiting && t.kernel.pending == {} ==>
                  t.died.None? && child in t.kernel.children && t.kernel.children[child] == Running(true))
            && (forall i | 0 <= i < |t.reached| :: t.reached[i].to.Some? && t.reached[i].to.value.main)
  {
    StartedMeansInv(s, child);
    RunsKeepInv(s, child, steps);
    var t := Exec(s, child, steps);
    if t.phase == Waiting && t.kernel.pending == {} {
      assert child !in ZombiePids(t.kernel);
    }
  }

  function SignalsOf(reached: seq<Delivery>): seq<Signal> {
    seq(|reached|, i requires 0 <= i < |reached| => reached[i].signal)
  }

  /** The signals `sigwait` returned in a run, other than SIGCHLD, in order. */
  function Taken(s: State, child: Pid, steps: seq<Step>): seq<Signal> {
    if steps == [] then [] else
    var before, last := Exec(s, child, steps[..|steps| - 1]), steps[|steps| - 1];
    Taken(s, child, steps[..|steps| - 1])
    + if last.SigWait? && Enabled(before, last) && last.signal != SIGCHLD then [last.signal] else []
  }

  /** Every signal taken is forwarded, once and in order; only the last may still be on its way. */
  lemma {:induction false} ForwardsWhatItTook(s: State, child: Pid, steps: seq<Step>)
    requires Started(s, child)
    ensures var t := Exec(s, child, steps);
            && SignalsOf(t.reached) <= Taken(s, child, steps)
            && (!t.phase.Failed? ==>
                  Taken(s, child, steps) == SignalsOf(t.reached) + if t.phase.Forwarding? then [t.phase.signal] else [])
  {
    if steps != [] {
      var n := |steps| - 1;
      ForwardsWhatItTook(s, child, steps[..n]);
      ForwardsStep(Exec(s, child, steps[..n]), child, steps[n], Taken(s, child, steps[..n]));
    }
  }

  predicate InStep(t: State, taken: seq<Signal>) {
    && SignalsOf(t.reached) <= taken
    && (!t.phase.Failed? ==> taken == SignalsOf(t.reached) + if t.phase.Forwarding? then [t.phase.signal] else [])
  }

  lemma ForwardsStep(t: State, child: Pid, step: Step, taken: seq<Signal>)
    requires InStep(t, taken)
    ensures InStep(Next(t, child, step),
                   taken + if step.SigWait? && Enabled(t, step) && step.signal != SIGCHLD then [step.signal] else [])
  {
    assert taken + [] == taken;
    if step.Forward? && Enabled(t, step) {
      var u := Next(t, child, step);
      assert SignalsOf(u.reached) == SignalsOf(t.reached) + [t.phase.signal];
    }
  }

  /** The code to relay: a normal exit's own, or 128 plus the number of the signal that ended it. */
  predicate Relays(code: int, status: Status) {
    && (status.Exited? ==> code == status.code)
    && (status.Signaled? ==> code == 128 + status.signal)
  }

  /** The i-th step waits for the process that then has the main child's pid. */
  predicate WaitsUnderPid(s: State, child: Pid, steps: seq<Step>, i: nat) {
    i < |steps| && steps[i] == WaitPid(child) && Enabled(Exec(s, child, steps[..i]), WaitPid(child))
  }

  /** An adopted process was waited for under the main child's pid. */
  predicate OrphanWaited(s: State, child: Pid, steps: seq<Step>) {
    exists i | 0 <= i < |steps| ::
      WaitsUnderPid(s, child, steps, i) && !Exec(s, child, steps[..i]).kernel.children[child].main
  }

  /** The last process waited for under the main child's pid. */
  function LastWaited(s: State, child: Pid, steps: seq<Step>): Option<Process> {
    if steps == [] then None else
    var n := |steps| - 1;
    if WaitsUnderPid(s, child, steps, n) then Some(Exec(s, child, steps[..n]).kernel.children[child])
    else LastWaited(s, child, steps[..n])
  }

  /** In every interleaving the code found or returned is that of the last process waited for under
      the main child's pid. */
  lemma {:induction false} ReturnsTheLastExitUnderThePid(s: State, child: Pid, steps: seq<Step>)
    requires s.phase == Waiting || s.phase == Reaping(None)
    ensures var t := Exec(s, child, steps);
            var last := LastWaited(s, child, steps);
            && (last.Some? ==> last.value.Zombie?)
            && (t.phase.Reaping? && t.phase.exit.Some? ==>
                  last.Some? && Relays(t.phase.exit.value, last.value.status))
            && (t.phase.Returned? ==> last.Some? && Relays(t.phase.code, last.value.status))
  {
    if steps != [] {
      ReturnsTheLastExitUnderThePid(s, child, steps[..|steps| - 1]);
    }
  }

  lemma OrphanWaitedStep(s: State, child: Pid, steps: seq<Step>)
    requires steps != []
    ensures var n := |steps| - 1;
            OrphanWaited(s, child, steps) <==>
              || OrphanWaited(s, child, steps[..n])
              || (WaitsUnderPid(s, child, steps, n) && !Exec(s, child, steps[..n]).kernel.children[child].main)
  {
    var n := |steps| - 1;
    assert forall i | 0 <= i <= n :: steps[..n][..i] == steps[..i];
    assert forall i | 0 <= i < n :: steps[..n][i] == steps[i];
    if i :| 0 <= i < |steps| && WaitsUnderPid(s, child, steps, i)
            && !Exec(s, child, steps[..i]).kernel.children[child].main {
      assert i < n ==> WaitsUnderPid(s, child, steps[..n], i);
    }
    if i :| 0 <= i < n && WaitsUnderPid(s, child, steps[..n], i)
            && !Exec(s, child, steps[..n][..i]).kernel.children[child].main {
      assert WaitsUnderPid(s, child, steps, i);
    }
  }

  /** How the wait history stands to the state: nothing waited for before the main child, and an
      orphan only after it. */
  predicate WaitHistory(t: State, last: Option<Process>, orphan: bool) {
    && (last.Some? <==> t.reaped)
    && (orphan <==> last.Some? && !last.value.main)
    && (last.Some? && last.value.main ==> last.value.Zombie? && t.died == Some(last.value.status))
  }

  lemma WaitHistoryStep(t: State, child: Pid, step: Step, last: Option<Process>, orphan: bool)
    requires Inv(t, child) && WaitHistory(t, last, orphan)
    ensures var waits := step == WaitPid(child) && Enabled(t, step);
            WaitHistory(Next(t, child, step),
                        if waits then Some(t.kernel.children[child]) else last,
                        orphan || (waits && !t.kernel.children[child].main))
  {
  }

  lemma {:induction false} WaitHistoryHolds(s: State, child: Pid, steps: seq<Step>)
    requires Started(s, child)
    ensures WaitHistory(Exec(s, child, steps), LastWaited(s, child, steps), OrphanWaited(s, child, steps))
  {
    if steps != [] {
      var n := |steps| - 1;
      var front := steps[..n];
      WaitHistoryHolds(s, child, front);
      StartedMeansInv(s, child);
      RunsKeepInv(s, child, front);
      OrphanWaitedStep(s, child, steps);
      WaitHistoryStep(Exec(s, child, front), child, steps[n],
                      LastWaited(s, child, front), OrphanWaited(s, child, front));
    }
  }

  /** In every interleaving `run` returns the exit code, or 128 plus the signal, of the last process
      waited for under the main child's pid; that process is the main child exactly when no adopted
      process was waited for under the pid. */
  lemma ReturnsTheMainExit(s: State, child: Pid, steps: seq<Step>)
    requires Started(s, child)
    ensures var t := Exec(s, child, steps);
            var last := LastWaited(s, child, steps);
            t.phase.Returned? ==>
              && t.reaped && t.died.Some? && last.Some? && last.value.Zombie?
              && Relays(t.phase.code, last.value.status)
              && (last.value.main <==> !OrphanWaited(s, child, steps))
              && (last.value.main ==> Relays(t.phase.code, t.died.value))
  {
    ReturnsTheLastExitUnderThePid(s, child, steps);
    WaitHistoryHolds(s, child, steps);
    StartedMeansInv(s, child);
    RunsKeepInv(s, child, steps);
  }

  /** The main child's pid is not handed to an orphan of ours. */
  predicate NotRecycled(steps: seq<Step>, child: Pid) {
    forall i | 0 <= i < |steps| :: steps[i] != Env(Adopt(child))
  }

  predicate OnlyMainUnderPid(s: State, child: Pid) {
    child in s.kernel.children ==> s.kernel.children[child].main
  }

  lemma {:induction false} UnrecycledIsNeverWaited(s: State, child: Pid, steps: seq<Step>)
    requires Started(s, child) && NotRecycled(steps, child)
    ensures OnlyMainUnderPid(Exec(s, child, steps), child) && !OrphanWaited(s, child, steps)
  {
    if steps != [] {
      var n := |steps| - 1;
      UnrecycledIsNeverWaited(s, child, steps[..n]);
      OrphanWaitedStep(s, child, steps);
      assert steps[n] != Env(Adopt(child));
    }
  }

  /** The condition can fail: whenever the freed pid goes to an orphan that ends before `reap` is
      done, the orphan's code is returned, whatever the main child's was. */
  lemma RecycledPidOverrides(s: State, child: Pid, status: Status)
    requires s.phase.Reaping? && child !in s.kernel.children && ZombiePids(s.kernel) == {}
    ensures var t := Exec(s, child, [Env(Adopt(child)), Env(Exit(child, status)), WaitPid(child), WaitNone]);
            t.phase.Returned? && Relays(t.phase.code, status) && t.died == s.died
  {
    var steps := [Env(Adopt(child)), Env(Exit(child, status)), WaitPid(child), WaitNone];
    var k := s.kernel;
    var adopted := s.(kernel := k.(children := k.children[child := Running(false)]));
    var died := s.(kernel := Kernel(k.children[child := Zombie(false, status)], k.pending + {SIGCHLD}));
    assert steps[..3][..2] == steps[..2] && steps[..2][..1] == steps[..1] && steps[..1][..0] == [];
    assert Exec(s, child, steps[..1]) == adopted;
    assert adopted.kernel.children[child := Zombie(false, status)] == died.kernel.children;
    assert Exec(s, child, steps[..2]) == died;
    assert died.kernel.children - {child} == k.children;
    var reaped := Exec(s, child, steps[..3]);
    assert reaped.kernel.children == k.children && reaped.phase == Reaping(Some(ExitCode(status)));
    assert ZombiePids(reaped.kernel) == ZombiePids(k);
  }

  /** A whole run of that kind. */
  lemma RecycledPidReturnsAnotherCode() returns (s: State, steps: seq<Step>)
    ensures Started(s, 7)
    ensures Exec(s, 7, steps).phase == Returned(0) && Exec(s, 7, steps).died == Some(Exited(3))
  {
    s := State(Kernel(map[7 := Running(true)], {}), Waiting, None, false, []);
    var a := [Env(Exit(7, Exited(3))), SigWait(SIGCHLD), WaitPid(7)];
    var b := [Env(Adopt(7)), Env(Exit(7, Exited(0))), WaitPid(7), WaitNone];
    steps := a + b;
    ExecConcat(s, 7, a, b);
    MainIsReaped(s, a);
    RecycledPidOverrides(Exec(s, 7, a), 7, Exited(0));
  }

  lemma MainIsReaped(s: State, steps: seq<Step>)
    requires s == State(Kernel(map[7 := Running(true)], {}), Waiting, None, false, [])
    requires steps == [Env(Exit(7, Exited(3))), SigWait(SIGCHLD), WaitPid(7)]
    ensures Exec(s, 7, steps) == State(Kernel(map[], {}), Reaping(Some(3)), Some(Exited(3)), true, [])
  {
    var died := State(Kernel(map[7 := Zombie(true, Exited(3))], {SIGCHLD}), Waiting, Some(Exited(3)), false, []);
    var woken := died.(kernel := Kernel(map[7 := Zombie(true, Exited(3))], {}), phase := Reaping(None));
    assert steps[..3] == steps && steps[..2][..1] == steps[..1] && steps[..1][..0] == [];
    assert Exec(s, 7, steps[..1]) == died;
    assert Exec(s, 7, steps[..2]) == woken;
    assert woken.kernel.children - {7} == map[];
  }

  // -------------------------------------------------------------------------------------------
  // Progress

  /** Supervisor steps left if the environment stands still. */
  function Work(s: State): nat {
    2 * |s.kernel.pending| + |ZombiePids(s.kernel)| + (if s.phase.Forwarding? || s.phase.Reaping? then 1 else 0)
  }

  predicate OwnStep(s: State, step: Step) {
    Enabled(s, step) && !step.SysError?
  }

  lemma OwnStepsAreWork(s: State, child: Pid, step: Step)
    requires OwnStep(s, step)
    ensures Work(Next(s, child, step)) < Work(s)
    ensures Next(s, child, step).died == s.died
  {
    var t := Next(s, child, step);
    match step
    case SigWait(signal) =>
      assert s.kernel.pending == t.kernel.pending + {signal};
      assert ZombiePids(t.kernel) == ZombiePids(s.kernel);
    case WaitPid(pid) =>
      assert ZombiePids(s.kernel) == ZombiePids(t.kernel) + {pid};
    case Forward =>
      assert ZombiePids(t.kernel) == ZombiePids(s.kernel);
    case WaitNone =>
      assert ZombiePids(t.kernel) == ZombiePids(s.kernel);
    case _ =>
  }

  /** After the main child has ended, an unfinished supervisor always has a next step. */
  lemma NeverStuck(s: State, child: Pid) returns (step: Step)
    requires Inv(s, child) && s.died.Some? && !Finished(s)
    ensures OwnStep(s, step)
  {
    match s.phase
    case Waiting =>
      assert child in ZombiePids(s.kernel);
      step := SigWait(SIGCHLD);
    case Forwarding(_) => step := Forward;
    case Reaping(_) =>
      if ZombiePids(s.kernel) == {} {
        step := WaitNone;
      } else {
        var pid :| pid in ZombiePids(s.kernel);
        step := WaitPid(pid);
      }
  }

  /** The exit of the main child is never missed: after any interleaving in which it has ended, the
      supervisor, left to itself, is out of `run` within `Work` steps, whatever order it picks
      signals and zombies in. */
  lemma ExitIsNeverMissed(start: State, child: Pid, before: seq<Step>, own: seq<Step>)
    requires Started(start, child)
    requires Exec(start, child, before).died.Some? && !Exec(start, child, before).phase.Failed?
    requires forall i | 0 <= i < |own| :: OwnStep(Exec(Exec(start, child, before), child, own[..i]), own[i])
    ensures |own| <= Work(Exec(start, child, before))
    ensures var t := Exec(Exec(start, child, before), child, own);
            (forall step :: !OwnStep(t, step)) ==> t.phase.Returned?
  {
    var s := Exec(start, child, before);
    StartedMeansInv(start, child);
    RunsKeepInv(start, child, before);
    OwnRunsAreWork(s, child, own);
    RunsKeepInv(s, child, own);
    var t := Exec(s, child, own);
    if !Finished(t) {
      var step := NeverStuck(t, child);
    }
  }

  lemma {:induction false} OwnRunsAreWork(s: State, child: Pid, steps: seq<Step>)
    requires forall i | 0 <= i < |steps| :: OwnStep(Exec(s, child, steps[..i]), steps[i])
    ensures Work(Exec(s, child, steps)) + |steps| <= Work(s)
    ensures Exec(s, child, steps).died == s.died
    ensures Exec(s, child, steps).phase.Failed? ==> s.phase.Failed?
  {
    if steps != [] {
      var n := |steps| - 1;
      forall i | 0 <= i < n ensures OwnStep(Exec(s, child, steps[..n][..i]), steps[..n][i]) {
        assert steps[..n][..i] == steps[..i];
      }
      OwnRunsAreWork(s, child, steps[..n]);
      OwnStepsAreWork(Exec(s, child, steps[..n]), child, steps[n]);
    }
  }

  // -------------------------------------------------------------------------------------------
  // The code

  lemma {:induction false} ExecConcat(s: State, child: Pid, a: seq<Step>, b: seq<Step>)
    ensures Exec(s, child, a + b) == Exec(Exec(s, child, a), child, b)
  {
    if b == [] {
      assert a + b == a;
    } else {
      var n := |b| - 1;
      assert (a + b)[..|a + b| - 1] == a + b[..n];
      ExecConcat(s, child, a, b[..n]);
    }
  }

  /** What may happen behind the supervisor's back: one batch of events before each system call. */
  type Schedule = seq<seq<Event>>

  /** The scheduled events in order. */
  function Flat(schedule: Schedule): seq<Event> {
    if schedule == [] then [] else schedule[0] + Flat(schedule[1..])
  }

  /** The environment's events in a run. */
  function Delivered(trace: seq<Step>): seq<Event> {
    if trace == [] then [] else
    var last := trace[|trace| - 1];
    Delivered(trace[..|trace| - 1]) + if last.Env? then [last.event] else []
  }

  lemma {:induction false} DeliveredConcat(a: seq<Step>, b: seq<Step>)
    ensures Delivered(a + b) == Delivered(a) + Delivered(b)
  {
    if b == [] {
      assert a + b == a;
    } else {
      assert (a + b)[..|a + b| - 1] == a + b[..|b| - 1];
      DeliveredConcat(a, b[..|b| - 1]);
    }
  }

  /** `trace` delivered a first part of the schedule and `rest` is what is left of it. */
  predicate Accounts(schedule: Schedule, rest: Schedule, trace: seq<Step>) {
    Delivered(trace) + Flat(rest) == Flat(schedule)
  }

  lemma Regroup<T>(a: seq<T>, b: seq<T>, c: seq<T>)
    ensures (a + b) + c == a + (b + c)
  {
  }

  lemma AccountsOwn(schedule: Schedule, rest: Schedule, trace: seq<Step>, step: Step)
    requires Accounts(schedule, rest, trace) && !step.Env?
    ensures Accounts(schedule, rest, trace + [step])
  {
    assert (trace + [step])[..|trace|] == trace;
  }

  lemma AccountsOnward(schedule: Schedule, rest: Schedule, left: Schedule, trace: seq<Step>, more: seq<Step>)
    requires Accounts(schedule, rest, trace) && Accounts(rest, left, more)
    ensures Accounts(schedule, left, trace + more)
  {
    DeliveredConcat(trace, more);
    Regroup(Delivered(trace), Delivered(more), Flat(left));
  }

  predicate NeverAdopts(schedule: Schedule, child: Pid) {
    forall batch | batch in schedule :: Adopt(child) !in batch
  }

  /** The supervisor process, with the kernel it runs on. */
  class Pid1 {
    const child: Pid
    var s: State

    constructor (child: Pid, kernel: Kernel)
      requires child in kernel.children && kernel.children[child] == Running(true)
      requires forall pid | pid in kernel.children && pid != child :: kernel.children[pid] == Running(false)
      ensures this.child == child && Started(s, child) && s.kernel == kernel
    {
      this.child := child;
      s := State(kernel, Waiting, None, false, []);
    }

    /** One batch of environment events. */
    method Interfere(events: seq<Event>) returns (ghost trace: seq<Step>)
      modifies this
      ensures s == Exec(old(s), child, trace) && s.phase == old(s.phase)
      ensures Adopt(child) !in events ==> NotRecycled(trace, child)
      ensures events == [] ==> s == old(s)
      ensures Delivered(trace) == events
      ensures Zombies(old(s.kernel), child) ==> Zombies(s.kernel, child)
    {
      trace := [];
      for i := 0 to |events|
        invariant s == Exec(old(s), child, trace) && s.phase == old(s.phase)
        invariant Delivered(trace) == events[..i]
        invariant Zombies(old(s.kernel), child) ==> Zombies(s.kernel, child)
        invariant Adopt(child) !in events ==> NotRecycled(trace, child)
        invariant i == 0 ==> s == old(s)
      {
        assert (trace + [Env(events[i])])[..|trace|] == trace;
        trace := trace + [Env(events[i])];
        s := Happen(s, events[i]);
      }
    }

    /** What the schedule puts before the next system call. */
    method Turn(schedule: Schedule) returns (rest: Schedule, ghost trace: seq<Step>)
      modifies this
      ensures s == Exec(old(s), child, trace) && s.phase == old(s.phase) && Accounts(schedule, rest, trace)
      ensures if schedule == [] then rest == [] && s == old(s) else |rest| < |schedule|
      ensures Zombies(old(s.kernel), child) ==> Zombies(s.kernel, child)
      ensures NeverAdopts(schedule, child) ==> NotRecycled(trace, child) && NeverAdopts(rest, child)
    {
      rest, trace := schedule, [];
      if schedule != [] {
        assert schedule[0] in schedule;
        trace := Interfere(schedule[0]);
        rest := schedule[1..];
      }
    }

    /** One `waitpid` that finds a zombie; the kernel picks which. */
    method WaitOne() returns (pid: Pid, status: Status)
      requires s.phase.Reaping? && ZombiePids(s.kernel) != {}
      modifies this
      ensures Zombies(old(s.kernel), pid) && status == old(s.kernel).children[pid].status
      ensures s == Next(old(s), child, WaitPid(pid)) && s.kernel.pending == old(s.kernel.pending)
      ensures s.phase == if pid == child then Reaping(Some(ExitCode(status))) else old(s.phase)
      ensures |ZombiePids(s.kernel)| < |ZombiePids(old(s.kernel))|
    {
      pid :| pid in ZombiePids(s.kernel);
      status := s.kernel.children[pid].status;
      assert ZombiePids(s.kernel) == ZombiePids(Next(s, child, WaitPid(pid)).kernel) + {pid};
      s := Next(s, child, WaitPid(pid));
    }

    /** `reap`: wait without blocking until nothing is left to wait for. */
    method Reap(schedule: Schedule) returns (exit: Option<int>, rest: Schedule, ghost trace: seq<Step>)
      requires s.phase == Reaping(None)
      modifies this
      ensures s == Exec(old(s), child, trace)
      ensures s.phase == (if exit.Some? then Returned(exit.value) else Waiting)
      ensures ZombiePids(s.kernel) == {} && Accounts(schedule, rest, trace)
      ensures Zombies(old(s.kernel), child) ==> exit.Some?
      ensures var last := LastWaited(old(s), child, trace);
              exit.Some? ==> last.Some? && last.value.Zombie? && Relays(exit.value, last.value.status)
      ensures |rest| <= |schedule| && (schedule == [] ==> s.kernel.pending == old(s.kernel.pending))
      ensures NeverAdopts(schedule, child) ==> NotRecycled(trace, child) && NeverAdopts(rest, child)
    {
      exit, rest, trace := None, schedule, [];
      while true
        invariant s == Exec(old(s), child, trace) && s.phase == Reaping(exit) && Accounts(schedule, rest, trace)
        invariant |rest| <= |schedule| && (schedule == [] ==> s.kernel.pending == old(s.kernel.pending))
        invariant NeverAdopts(schedule, child) ==> NotRecycled(trace, child) && NeverAdopts(rest, child)
        invariant Zombies(old(s.kernel), child) ==> exit.Some? || Zombies(s.kernel, child)
        decreases |rest|, |ZombiePids(s.kernel)|
      {
        ghost var before, more := rest, [];
        rest, more := Turn(rest);
        ExecConcat(old(s), child, trace, more);
        AccountsOnward(schedule, before, rest, trace, more);
        trace := trace + more;
        if ZombiePids(s.kernel) == {} {
          // StillAlive or ECHILD.
          assert Zombies(s.kernel, child) ==> child in ZombiePids(s.kernel);
          AccountsOwn(schedule, rest, trace, WaitNone);
          trace := trace + [WaitNone];
          s := Next(s, child, WaitNone);
          ReturnsTheLastExitUnderThePid(old(s), child, trace);
          return;
        }
        var pid, status := WaitOne();
        AccountsOwn(schedule, rest, trace, WaitPid(pid));
        assert (trace + [WaitPid(pid)])[..|trace|] == trace;
        trace := trace + [WaitPid(pid)];
        if pid == child {
          exit := Some(ExitCode(status));
        }
      }
    }

    /** One turn of `run`'s loop once `sigwait` has something to return. */
    method HandleSignal(schedule: Schedule) returns (code: Option<int>, rest: Schedule, ghost trace: seq<Step>)
      requires s.phase == Waiting && s.kernel.pending != {}
      modifies this
      ensures s == Exec(old(s), child, trace)
      ensures s.phase == (if code.Some? then Returned(code.value) else Waiting)
      ensures trace != [] && trace[0].SigWait? && trace[0].signal in old(s.kernel.pending)
      ensures trace[0].signal == SIGCHLD ==>
                ZombiePids(s.kernel) == {} && (Zombies(old(s.kernel), child) ==> code.Some?)
      ensures trace[0].signal != SIGCHLD ==> trace[1..] == [Forward] && code.None? && rest == schedule
      ensures trace[0].signal != SIGCHLD ==> SignalsOf(s.reached) == SignalsOf(old(s.reached)) + [trace[0].signal]
      ensures Accounts(schedule, rest, trace)
      ensures |rest| <= |schedule| && (schedule == [] ==> |s.kernel.pending| < |old(s.kernel.pending)|)
      ensures NeverAdopts(schedule, child) ==> NotRecycled(trace, child) && NeverAdopts(rest, child)
    {
      var signal :| signal in s.kernel.pending;
      trace := [SigWait(signal)];
      assert s.kernel.pending == (s.kernel.pending - {signal}) + {signal};
      s := Next(s, child, SigWait(signal));
      assert trace[..0] == [] && s == Exec(old(s), child, trace);
      code, rest := None, schedule;
      assert Accounts(schedule, rest, trace);
      if signal == SIGCHLD {
        ghost var more;
        code, rest, more := Reap(schedule);
        ExecConcat(old(s), child, trace, more);
        AccountsOnward(schedule, schedule, rest, trace, more);
        trace := trace + more;
      } else {
        // ESRCH is tolerated by the code; it cannot occur.
        assert (trace + [Forward])[..1] == trace;
        AccountsOwn(schedule, rest, trace, Forward);
        trace := trace + [Forward];
        s := Next(s, child, Forward);
      }
    }

    /** `run` after the spawn, under every schedule: the code relayed is that of the last process
        waited for under the child's pid, which is the child exactly unless an adopted process was
        waited for under it; the call is still waiting only when everything scheduled has happened,
        nothing is pending and the child is alive. */
    method Run(schedule: Schedule) returns (code: Option<int>, ghost trace: seq<Step>)
      requires Started(s, child)
      modifies this
      ensures s == Exec(old(s), child, trace) && Inv(s, child)
      ensures code.Some? ==> s.phase == Returned(code.value) && s.reaped && s.died.Some?
      ensures var last := LastWaited(old(s), child, trace);
              code.Some? ==>
                && last.Some? && last.value.Zombie? && Relays(code.value, last.value.status)
                && (last.value.main <==> !OrphanWaited(old(s), child, trace))
                && (last.value.main ==> Relays(code.value, s.died.value))
      ensures NeverAdopts(schedule, child) ==> !OrphanWaited(old(s), child, trace)
      ensures code.None? ==> s.died.None? && child in s.kernel.children && s.kernel.children[child] == Running(true)
      ensures code.None? ==> s.kernel.pending == {} && Delivered(trace) == Flat(schedule)
    {
      var rest := schedule;
      code, trace := None, [];
      while s.phase == Waiting && (rest != [] || s.kernel.pending != {})
        invariant s == Exec(old(s), child, trace) && Accounts(schedule, rest, trace)
        invariant s.phase == (if code.Some? then Returned(code.value) else Waiting)
        invariant NeverAdopts(schedule, child) ==> NotRecycled(trace, child) && NeverAdopts(rest, child)
        decreases |rest|, |s.kernel.pending|
      {
        ghost var before, more := rest, [];
        rest, more := Turn(rest);
        ExecConcat(old(s), child, trace, more);
        AccountsOnward(schedule, before, rest, trace, more);
        trace := trace + more;
        if s.kernel.pending != {} {
          before := rest;
          code, rest, more := HandleSignal(rest);
          ExecConcat(old(s), child, trace, more);
          AccountsOnward(schedule, before, rest, trace, more);
          trace := trace + more;
        }
      }
      StartedMeansInv(old(s), child);
      RunsKeepInv(old(s), child, trace);
      NoWakeUpIsLost(old(s), child, trace);
      ReturnsTheMainExit(old(s), child, trace);
      if NeverAdopts(schedule, child) {
        UnrecycledIsNeverWaited(old(s), child, trace);
      }
    }
  }
}
