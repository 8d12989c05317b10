/**
 * The service runtime: one sync task at a time, requested and cancelled by concurrent
 * callers.  Each command runs under the state's mutex, so an interleaving is a sequence of
 * commands.  A spawned task is named by its cancellation token.
 */
module Runtime {
  import opened Paths

  datatype Trigger = Scheduled | Manual | Cli | Migration

  datatype Status = Idle | Running | Cancelling | FailedStatus | Degraded

  datatype RunStatus = RunRunning | Succeeded | PartialFailed | RunFailed | Cancelled

  /** What a task ends with: a report, or an error before one. */
  datatype TaskResult = Report(status: RunStatus) | TaskError

  // ----- the final status of a run

  datatype RootStatus = RootSucceeded | RootSkipped | RootPartialFailed | RootFailed | RootCancelled

  datatype RunCounts = RunCounts(uploaded: int, updated: int, deleted: int, failed: int)

  predicate HasRoot(roots: seq<RootStatus>, status: RootStatus) {
    status in roots
  }

  function StatusFromSummary(counts: RunCounts, roots: seq<RootStatus>): (r: RunStatus)
    ensures r != RunRunning && r != Cancelled
    ensures r == Succeeded <==>
      counts.failed <= 0 && forall s | s in roots :: s.RootSucceeded? || s.RootCancelled?
    ensures r == RunFailed <==>
      || RootFailed in roots
      || (RootSkipped !in roots && RootPartialFailed !in roots
          && counts.failed > 0 && counts.uploaded <= 0 && counts.updated <= 0 && counts.deleted <= 0)
  {
    if HasRoot(roots, RootFailed) then RunFailed
    else if HasRoot(roots, RootSkipped) || HasRoot(roots, RootPartialFailed) then PartialFailed
    else if counts.failed > 0 then
      if counts.uploaded > 0 || counts.updated > 0 || counts.deleted > 0 then PartialFailed else RunFailed
    else Succeeded
  }

  /** The status `run_once` reports: it is never still running. */
  function FinalStatus(executionFailed: bool, cancelled: bool, counts: RunCounts, roots: seq<RootStatus>)
    : (r: RunStatus)
    ensures r != RunRunning
    ensures r == Cancelled <==> cancelled && !executionFailed
    ensures executionFailed ==> r == RunFailed
  {
    if executionFailed then RunFailed
    else if cancelled then Cancelled
    else StatusFromSummary(counts, roots)
  }

  // ----- commands

  datatype Snapshot = Snapshot(status: Status, currentRun: Option<Trigger>, token: Option<nat>, scheduledSkips: nat)

  datatype Command =
    | RequestRun(trigger: Trigger, token: nat)
    | RequestCancel
    | FinishRun(token: nat, result: TaskResult)

  const INITIAL := Snapshot(Idle, None, None, 0)

  predicate Busy(s: Snapshot) {
    s.status.Running? || s.status.Cancelling?
  }

  function StatusAfter(result: TaskResult): Status {
    match result
    case TaskError => FailedStatus
    case Report(Succeeded) => Idle
    case Report(Cancelled) => Idle
    case Report(PartialFailed) => Degraded
    case Report(RunFailed) => FailedStatus
    case Report(RunRunning) => Running
  }

  function Apply(s: Snapshot, c: Command): Snapshot {
    match c
    case RequestRun(trigger, t) =>
      if Busy(s) then (if trigger.Scheduled? then s.(scheduledSkips := s.scheduledSkips + 1) else s)
      else s.(status := Running, currentRun := Some(trigger), token := Some(t))
    case RequestCancel => if s.token.None? then s else s.(status := Cancelling)
    case FinishRun(_, result) => Snapshot(StatusAfter(result), None, None, s.scheduledSkips)
  }

  predicate Accepted(s: Snapshot, c: Command) {
    match c
    case RequestRun(_, _) => !Busy(s)
    case RequestCancel => s.token.Some?
    case FinishRun(_, _) => true
  }

  class RuntimeState {
    var status: Status
    var currentRun: Option<Trigger>
    var cancellation: Option<nat>
    var scheduledSkips: nat

    constructor ()
      ensures View() == INITIAL
    {
      status, currentRun, cancellation, scheduledSkips := Idle, None, None, 0;
    }

    function View(): Snapshot
      reads this
    {
      Snapshot(status, currentRun, cancellation, scheduledSkips)
    }

    method Request(trigger: Trigger, token: nat) returns (accepted: bool)
      modifies this
      ensures View() == Apply(old(View()), RequestRun(trigger, token))
      ensures accepted == Accepted(old(View()), RequestRun(trigger, token))
    {
      if status.Running? || status.Cancelling? {
        if trigger.Scheduled? {
          scheduledSkips := scheduledSkips + 1;
        }
        return false;
      }
      status := Running;
      currentRun := Some(trigger);
      cancellation := Some(token);
      return true;
    }

    method Cancel() returns (accepted: bool)
      modifies this
      ensures View() == Apply(old(View()), RequestCancel)
      ensures accepted == Accepted(old(View()), RequestCancel)
    {
      if cancellation.None? {
        return false;
      }
      status := Cancelling;
      return true;
    }

    method Finish(token: nat, result: TaskResult)
      modifies this
      ensures View() == Apply(old(View()), FinishRun(token, result))
    {
      currentRun := None;
      cancellation := None;
      status := StatusAfter(result);
    }
  }

  /** What a finished task leaves: nothing running, and a status that says how it ended. */
  lemma FinishMeans(s: Snapshot, token: nat, result: TaskResult)
    ensures var after := Apply(s, FinishRun(token, result));
      && after.currentRun == None && after.token == None && after.scheduledSkips == s.scheduledSkips
      && (after.status == Idle <==> result == Report(Succeeded) || result == Report(Cancelled))
      && (after.status == Degraded <==> result == Report(PartialFailed))
      && (after.status == FailedStatus <==> result == Report(RunFailed) || result == TaskError)
  {
  }

  // ----- interleavings

  /** The state, the tasks spawned and not finished, the tokens cancelled, the scheduled requests turned away. */
  datatype World = World(state: Snapshot, inFlight: multiset<nat>, cancelled: set<nat>, rejectedScheduled: nat)

  const START := World(INITIAL, multiset{}, {}, 0)

  function Step(w: World, c: Command): World {
    var state := Apply(w.state, c);
    match c
    case RequestRun(trigger, t) =>
      if Accepted(w.state, c) then w.(state := state, inFlight := w.inFlight + multiset{t})
      else w.(state := state, rejectedScheduled := w.rejectedScheduled + (if trigger.Scheduled? then 1 else 0))
    case RequestCancel =>
      w.(state := state, cancelled := w.cancelled + (if w.state.token.Some? then {w.state.token.value} else {}))
    case FinishRun(t, _) => w.(state := state, inFlight := w.inFlight - multiset{t})
  }

  function After(commands: seq<Command>): World {
    if commands == [] then START else Step(After(commands[..|commands| - 1]), commands[|commands| - 1])
  }

  /** Only a task in flight can finish. */
  predicate Possible(commands: seq<Command>)
    decreases |commands|
  {
    commands == [] ||
    (var before, last := commands[..|commands| - 1], commands[|commands| - 1];
     Possible(before) && (last.FinishRun? ==> last.token in After(before).inFlight))
  }

  predicate NeverReportsRunning(commands: seq<Command>) {
    forall c | c in commands && c.FinishRun? :: c.result != Report(RunRunning)
  }

  /** At most one task in flight, and the status, the current run and the token all say whether there is one. */
  predicate SingleFlight(w: World) {
    && w.inFlight == (if w.state.token.Some? then multiset{w.state.token.value} else multiset{})
    && (Busy(w.state) <==> w.state.token.Some?)
    && (Busy(w.state) <==> w.state.currentRun.Some?)
    && w.state.scheduledSkips == w.rejectedScheduled
  }

  lemma StepKeepsSingleFlight(w: World, c: Command)
    requires SingleFlight(w)
    requires c.FinishRun? ==> c.token in w.inFlight && c.result != Report(RunRunning)
    ensures SingleFlight(Step(w, c))
  {
    if c.FinishRun? {
      assert w.inFlight == multiset{c.token};
      assert w.inFlight - multiset{c.token} == multiset{};
    }
  }

  lemma {:induction false} SingleFlightAlways(commands: seq<Command>)
    requires Possible(commands) && NeverReportsRunning(commands)
    ensures SingleFlight(After(commands))
  {
    if commands != [] {
      var before, last := commands[..|commands| - 1], commands[|commands| - 1];
      assert commands == before + [last];
      SingleFlightAlways(before);
      StepKeepsSingleFlight(After(before), last);
    }
  }

  lemma AtMostOneTask(commands: seq<Command>)
    requires Possible(commands) && NeverReportsRunning(commands)
    ensures |After(commands).inFlight| <= 1
  {
    SingleFlightAlways(commands);
  }

  /**
   * In any history a request starts its task exactly if no task is in flight; otherwise
   * nothing changes but the count of scheduled requests turned away.
   */
  lemma RequestStartsIff(commands: seq<Command>, trigger: Trigger, t: nat)
    requires Possible(commands) && forall c | c in commands && c.FinishRun? :: c.result != Report(RunRunning)
    ensures var w, next := After(commands), After(commands + [RequestRun(trigger, t)]);
      if w.inFlight == multiset{}
      then
        && next.inFlight == multiset{t} && next.cancelled == w.cancelled
        && next.state == Snapshot(Running, Some(trigger), Some(t), w.state.scheduledSkips)
      else
        && next.inFlight == w.inFlight && next.cancelled == w.cancelled
        && next.state == w.state.(scheduledSkips := w.state.scheduledSkips + if trigger.Scheduled? then 1 else 0)
  {
    SingleFlightAlways(commands);
    assert (commands + [RequestRun(trigger, t)])[..|commands|] == commands;
  }

  /** A cancel request reaches exactly the sync task in flight, if there is one. */
  lemma CancelReachesTheTask(commands: seq<Command>)
    requires Possible(commands) && NeverReportsRunning(commands)
    ensures var w := After(commands);
      && (Accepted(w.state, RequestCancel) <==> w.inFlight != multiset{})
      && Step(w, RequestCancel).cancelled == w.cancelled + (set t | t in w.inFlight)
  {
    SingleFlightAlways(commands);
    var w := After(commands);
    if w.state.token.Some? {
      assert w.state.token.value in w.inFlight;
    }
  }

  /** Busy, but nothing is in flight and no token is left to cancel. */
  predicate Stuck(w: World) {
    w.state.status.Running? && w.state.token.None? && w.inFlight == multiset{}
  }

  /**
   * The invariant rests on the sync task: a task that reports itself as running leaves the
   * runtime stuck, any other result does not.
   */
  lemma FinishLeavesStuckIff(commands: seq<Command>, t: nat, result: TaskResult)
    requires Possible(commands) && NeverReportsRunning(commands) && t in After(commands).inFlight
    ensures Stuck(After(commands + [FinishRun(t, result)])) <==> result == Report(RunRunning)
  {
    SingleFlightAlways(commands);
    var all := commands + [FinishRun(t, result)];
    assert all[..|all| - 1] == commands;
    assert After(commands).inFlight - multiset{t} == multiset{};
  }

  lemma StuckStep(w: World, c: Command)
    requires Stuck(w) && (c.FinishRun? ==> c.token in w.inFlight)
    ensures Stuck(Step(w, c)) && (!c.FinishRun? ==> !Accepted(w.state, c))
  {
  }

  /** Once stuck, no later command is accepted and nothing runs again. */
  lemma {:induction false} StuckForever(commands: seq<Command>, more: seq<Command>)
    requires Stuck(After(commands)) && Possible(commands + more)
    ensures Stuck(After(commands + more))
    ensures forall c: Command :: !c.FinishRun? ==> !Accepted(After(commands + more).state, c)
  {
    if more == [] {
      assert commands + more == commands;
    } else {
      var rest, last := more[..|more| - 1], more[|more| - 1];
      var all := commands + more;
      assert all[..|all| - 1] == commands + rest && all[|all| - 1] == last;
      StuckForever(commands, rest);
      StuckStep(After(commands + rest), last);
    }
  }
}
