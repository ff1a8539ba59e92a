/** What a SAN command comes to: the event that ends it, and the attempts that sandev_command makes. */
module SanCommands {
  import opened Options
  import opened Lists
  import opened SanPaths

  //////////////////////////////////////////////////////////////////////////////
  // The status of one command
  //////////////////////////////////////////////////////////////////////////////

  /** The events that end a command issued to path p. */
  ghost predicate Ends(p: nat, e: Event) {
    e.CommandClosed? || e.Expired? || (e.BlockClosed? && e.path == p)
  }

  /** The status such an event leaves. */
  ghost function StatusOf(e: Event): int
    requires !e.Step?
  {
    match e
    case CommandClosed(rc) => rc
    case BlockClosed(_, rc) => LossOf(rc)
    case Expired => ETIMEDOUT
  }

  /** The first event that ends the command, or the number of events. */
  ghost function FirstEnd(p: nat, events: seq<Event>): (k: nat)
    ensures k <= |events|
    ensures k < |events| ==> Ends(p, events[k])
    ensures forall j :: 0 <= j < k ==> !Ends(p, events[j])
    decreases |events|
  {
    if events == [] || Ends(p, events[0]) then 0 else 1 + FirstEnd(p, events[1..])
  }

  lemma RunningEvent(s: San, p: nat, e: Event)
    requires Consistent(s) && s.timer && s.active == Some(p)
    ensures var t := Deliver(s, e);
      if Ends(p, e) then !t.timer && t.commandRc == StatusOf(e)
      else t.timer && t.active == Some(p) && t.commandRc == s.commandRc
  {
    hide Distinct, Without;
  }

  /** Once the command has ended, only a further close can change its status. */
  lemma EndedEvent(s: San, e: Event)
    requires Consistent(s) && !s.timer
    ensures var t := Deliver(s, e);
      && !t.timer
      && (e.Step? || e.Expired? ==> t.commandRc == s.commandRc)
      && (e.CommandClosed? ==> t.commandRc == e.rc)
      && (e.BlockClosed? ==> t.commandRc == if s.active == Some(e.path) then LossOf(e.rc) else s.commandRc)
  {
    hide Distinct, Without;
  }

  /** Event j of a step decides the status: the command has ended by then, the event is a close or the one that ends
      the command, and no close of the command comes later. */
  ghost predicate Decides(p: nat, step: seq<Event>, j: nat, rc: int) {
    && FirstEnd(p, step) <= j < |step| && !step[j].Step? && rc == StatusOf(step[j])
    && (step[j].Expired? ==> j == FirstEnd(p, step))
    && (forall i :: j < i < |step| ==> !step[i].CommandClosed?)
  }

  /** The status that the step in which the command ends leaves. */
  ghost predicate Decided(p: nat, step: seq<Event>, rc: int) {
    exists j: nat :: Decides(p, step, j, rc)
  }

  lemma {:induction false} EndedRun(s: San, events: seq<Event>)
    requires Consistent(s) && !s.timer
    ensures var t := Run(s, events);
      && !t.timer
      && ((t.commandRc == s.commandRc && forall i :: 0 <= i < |events| ==> !events[i].CommandClosed?)
          || exists j :: ClosesLast(events, j, t.commandRc))
    decreases |events|
  {
    if events != [] {
      var t := Deliver(s, events[0]);
      EndedEvent(s, events[0]);
      DeliverKeeps(s, events[0]);
      EndedRun(t, events[1..]);
      hide Consistent, Deliver, Run;
      var u := Run(t, events[1..]);
      if j :| ClosesLast(events[1..], j, u.commandRc) {
        assert ClosesLast(events, j + 1, u.commandRc);
      } else if u.commandRc != s.commandRc || events[0].CommandClosed? {
        assert ClosesLast(events, 0, u.commandRc);
      }
    }
  }

  ghost predicate ClosesLast(events: seq<Event>, j: int, rc: int) {
    && 0 <= j < |events| && (events[j].CommandClosed? || events[j].BlockClosed?) && rc == StatusOf(events[j])
    && forall i :: j < i < |events| ==> !events[i].CommandClosed?
  }

  lemma DecidesLater(p: nat, step: seq<Event>, j: nat, rc: int)
    requires step != [] && !Ends(p, step[0]) && Decides(p, step[1..], j, rc)
    ensures Decides(p, step, j + 1, rc)
  {
    assert forall i :: j + 1 < i < |step| ==> step[i] == step[1..][i - 1];
  }

  lemma DecidesFirst(p: nat, step: seq<Event>, before: int, rc: int)
    requires step != [] && Ends(p, step[0]) && before == StatusOf(step[0])
    requires || (rc == before && forall i :: 0 <= i < |step[1..]| ==> !step[1..][i].CommandClosed?)
             || exists j :: ClosesLast(step[1..], j, rc)
    ensures Decided(p, step, rc)
  {
    if j :| ClosesLast(step[1..], j, rc) {
      assert forall i :: j + 1 < i < |step| ==> step[i] == step[1..][i - 1];
      assert Decides(p, step, j + 1, rc);
    } else {
      assert forall i :: 0 < i < |step| ==> step[i] == step[1..][i - 1];
      assert Decides(p, step, 0, rc);
    }
  }

  /** One step of the system while the command runs. */
  lemma {:induction false} RunningStep(s: San, p: nat, step: seq<Event>)
    requires Consistent(s) && s.timer && s.active == Some(p)
    ensures var t := Run(s, step);
      if FirstEnd(p, step) == |step| then t.timer && t.active == Some(p) && t.commandRc == s.commandRc
      else !t.timer && Decided(p, step, t.commandRc)
    decreases |step|
  {
    hide Consistent, Deliver, Decides, Ends, ClosesLast, StatusOf;
    if step != [] {
      var t := Deliver(s, step[0]);
      RunningEvent(s, p, step[0]);
      DeliverKeeps(s, step[0]);
      var u := Run(t, step[1..]);
      if Ends(p, step[0]) {
        EndedRun(t, step[1..]);
        EndsNoStep(p, step[0]);
        DecidesFirst(p, step, t.commandRc, u.commandRc);
      } else {
        RunningStep(t, p, step[1..]);
        if FirstEnd(p, step) < |step| {
          var j: nat :| Decides(p, step[1..], j, u.commandRc);
          DecidesLater(p, step, j, u.commandRc);
        }
      }
    }
  }

  lemma EndsNoStep(p: nat, e: Event)
    requires Ends(p, e)
    ensures !e.Step?
  {
  }

  /** Waiting for the command's timer to stop. */
  ghost function Await(s: San, running: seq<seq<Event>>): San
    decreases |running|
  {
    if !s.timer || running == [] then s else Await(Run(s, running[0]), running[1..])
  }

  /** The step in which a command issued to path p ends, or the number of steps. */
  ghost function EndStep(p: nat, running: seq<seq<Event>>): (m: nat)
    ensures m <= |running|
    ensures m < |running| ==> FirstEnd(p, running[m]) < |running[m]|
    ensures forall k :: 0 <= k < m ==> FirstEnd(p, running[k]) == |running[k]|
    decreases |running|
  {
    if running == [] || FirstEnd(p, running[0]) < |running[0]| then 0 else 1 + EndStep(p, running[1..])
  }

  /** The command ends, and rc is its status. */
  ghost predicate EndsWith(p: nat, running: seq<seq<Event>>, rc: int) {
    EndStep(p, running) < |running| && Decided(p, running[EndStep(p, running)], rc)
  }

  /** The timer stops in the first step with an event that ends the command, and the status is what that step leaves;
      without such an event it goes on running. */
  lemma {:induction false} AwaitEnds(s: San, p: nat, running: seq<seq<Event>>)
    requires Consistent(s) && s.timer && s.active == Some(p)
    ensures var t := Await(s, running);
      if EndStep(p, running) == |running| then t.timer && t.active == Some(p)
      else !t.timer && EndsWith(p, running, t.commandRc)
    decreases |running|
  {
    hide Consistent, Run, FirstEnd, Decided;
    if running != [] {
      RunKeeps(s, running[0]);
      RunningStep(s, p, running[0]);
      if FirstEnd(p, running[0]) == |running[0]| {
        AwaitEnds(Run(s, running[0]), p, running[1..]);
        assert EndStep(p, running) == 1 + EndStep(p, running[1..]);
      }
    }
  }

  /** Event j closes the command with status zero, and no later event of the step closes it again. */
  ghost predicate ClosesWell(p: nat, step: seq<Event>, j: nat) {
    && FirstEnd(p, step) <= j < |step| && step[j] == CommandClosed(0)
    && forall i :: j < i < |step| ==> !step[i].CommandClosed?
  }

  /** Success is the command's own: the step in which it ended closed it with status zero, and not again. */
  lemma SuccessIsClosed(p: nat, running: seq<seq<Event>>)
    requires EndsWith(p, running, 0)
    ensures exists j: nat :: ClosesWell(p, running[EndStep(p, running)], j)
  {
    var step := running[EndStep(p, running)];
    var j: nat :| Decides(p, step, j, 0);
    assert ClosesWell(p, step, j);
  }

  /** Events that one step brings can overrule each other: a command that succeeded has failed after all if the same
      step then loses the path. */
  lemma LossOverrules(s: San, p: nat, rc: int)
    requires Consistent(s) && s.timer && s.active == Some(p)
    ensures var t := Await(s, [[CommandClosed(0), BlockClosed(p, rc)]]); !t.timer && t.commandRc == LossOf(rc)
  {
    hide Without, Distinct;
    var e, f := CommandClosed(0), BlockClosed(p, rc);
    var step := [e, f];
    assert step == [e] + [f];
    RunAppend(s, [e], [f]);
    ShortRun(s, [e]);
    ShortRun(Deliver(s, e), [f]);
    var schedule: seq<seq<Event>> := [step];
    assert schedule[1..] == [];
  }

  /** When steps bring one event each, it is the first event that ends the command which decides. */
  lemma SingleEnds(p: nat, running: seq<seq<Event>>, rc: int)
    requires forall k :: 0 <= k < |running| ==> |running[k]| <= 1
    ensures EndsWith(p, running, rc) <==>
              EndStep(p, running) < |running| && rc == StatusOf(running[EndStep(p, running)][0])
  {
    var m := EndStep(p, running);
    if m < |running| {
      assert |running[m]| == 1 && FirstEnd(p, running[m]) == 0;
      if rc == StatusOf(running[m][0]) {
        assert Decides(p, running[m], 0, rc);
      }
    }
  }

  //////////////////////////////////////////////////////////////////////////////
  // Attempts
  //////////////////////////////////////////////////////////////////////////////

  /** Everything outside the device that one iteration of the command loop meets: the status of opening each
      path, the events of each step while waiting for a path, the status of initiating the command, and the
      events of each step while the command runs. */
  datatype Attempt = Attempt(opening: map<nat, int>, waiting: seq<seq<Event>>, initiating: int, running: seq<seq<Event>>)

  /** Finished with a status; still blocked when the given events run out; or about to use an active path
      when there is none, which an assertion in the source rules out. */
  datatype Outcome = Finished(rc: int) | Blocked | NoActivePath

  /** What becomes of one attempt. */
  datatype Result = NotReopened(rc: int) | NotInitiated(path: nat, rc: int) | Completed(path: nat, rc: int)
                  | WithoutPath | AwaitingPath | AwaitingCommand(path: nat)

  /** The first failure to open a path, in the order in which they are opened. */
  ghost function FirstFailure(order: seq<nat>, opening: map<nat, int>): int {
    if order == [] then 0
    else if order[0] in opening && opening[order[0]] != 0 then opening[order[0]]
    else FirstFailure(order[1..], opening)
  }

  /** Every path is open and none has become available yet. */
  ghost predicate Fresh(s: San, paths: nat) {
    Consistent(s) && s.paths == paths && s.closedPaths == [] && s.active.None?
  }

  /** Reopening fails with this status: opening a path fails or, with all of them open, all are closed again without
      one having become available to stay. */
  ghost predicate ReopenFails(s: San, a: Attempt, rc: int) {
    var order := Restart(s, ECONNRESET).closedPaths;
    if FirstFailure(order, a.opening) != 0 then rc == FirstFailure(order, a.opening)
    else
      && (exists start :: Fresh(start, s.paths) && Wait(start, a.waiting).Some? && Wait(start, a.waiting).value.openPaths == [])
      && rc == if s.paths == 0 then ENODEV else FailureOf(s.paths, a.waiting)
  }

  /** Reopening leaves this path active. */
  ghost predicate Reopens(s: San, a: Attempt, p: nat) {
    && FirstFailure(Restart(s, ECONNRESET).closedPaths, a.opening) == 0
    && exists start :: Fresh(start, s.paths) && Wait(start, a.waiting).Some? && Wait(start, a.waiting).value.active == Some(p)
  }

  /** The command is issued to this path. */
  ghost predicate IssuedTo(s: San, a: Attempt, p: nat) {
    s.active == Some(p) || (s.active.None? && Reopens(s, a, p))
  }

  /** What one attempt does: the device goes from s to t. */
  ghost predicate Tried(s: San, a: Attempt, r: Result, t: San) {
    && Consistent(t) && t.paths == s.paths
    && match r
       case NotReopened(rc) =>
         s.active.None? && rc != 0 && ReopenFails(s, a, rc)
         && t.openPaths == [] && t.active.None? && t.commandRc == rc && !t.timer
       case WithoutPath =>
         s.active.None? && ReopenFails(s, a, 0) && t.active.None?
       case AwaitingPath =>
         s.active.None? && FirstFailure(Restart(s, ECONNRESET).closedPaths, a.opening) == 0
         && exists start :: Fresh(start, s.paths) && Wait(start, a.waiting).None?
       case NotInitiated(p, rc) =>
         IssuedTo(s, a, p) && rc == a.initiating != 0 && t.active == Some(p) && !t.timer
       case Completed(p, rc) =>
         IssuedTo(s, a, p) && a.initiating == 0 && EndsWith(p, a.running, rc) && t.commandRc == rc && !t.timer
       case AwaitingCommand(p) =>
         IssuedTo(s, a, p) && a.initiating == 0 && EndStep(p, a.running) == |a.running| && t.active == Some(p) && t.timer
  }

  /** The attempt failed, and another may follow. */
  ghost predicate Fails(r: Result) {
    (r.NotReopened? || r.NotInitiated? || r.Completed?) && r.rc != 0
  }

  /** The retries that are counted: failing to reopen a device with several paths is not. */
  ghost function Retries(paths: nat, results: seq<Result>): nat {
    if results == [] then 0
    else
      var n := Retries(paths, results[..|results| - 1]);
      if results[|results| - 1].NotReopened? && paths > 1 then n else n + 1
  }

  /** The commands issued. */
  ghost function Issued(results: seq<Result>): nat {
    if results == [] then 0
    else
      var n := Issued(results[..|results| - 1]);
      var last := results[|results| - 1];
      if last.NotInitiated? || last.Completed? || last.AwaitingCommand? then n + 1 else n
  }

  /** The attempts made, one after the other, from state to state. */
  ghost predicate Trace(states: seq<San>, env: seq<Attempt>, results: seq<Result>) {
    && |states| == |results| + 1 && |results| <= |env|
    && (forall k :: 0 <= k < |results| ==> Tried(states[k], env[k], results[k], states[k + 1]))
  }

  /** All attempts so far failed, and the retries are not used up. */
  ghost predicate Retrying(paths: nat, results: seq<Result>, limit: nat) {
    (forall k :: 0 <= k < |results| ==> Fails(results[k])) && Retries(paths, results) <= limit
  }

  /** What sandev_command makes of the attempts. */
  ghost predicate Concludes(paths: nat, env: seq<Attempt>, results: seq<Result>, limit: nat, r: Outcome) {
    if results == [] then env == [] && r == Blocked
    else
      var front, last := results[..|results| - 1], results[|results| - 1];
      && Retrying(paths, front, limit)
      && match last
         case WithoutPath => r == NoActivePath
         case AwaitingPath => r == Blocked
         case AwaitingCommand(_) => r == Blocked
         case _ =>
           if last.Completed? && last.rc == 0 then r == Finished(0)
           else if Retries(paths, results) > limit then Fails(last) && r == Finished(last.rc)
           else Fails(last) && r == Blocked && |results| == |env|
  }

  lemma {:induction false} IssuedBound(paths: nat, results: seq<Result>)
    requires forall k :: 0 <= k < |results| ==> Fails(results[k])
    ensures Issued(results) <= Retries(paths, results)
    ensures paths <= 1 ==> Retries(paths, results) == |results|
    ensures paths > 1 ==> Retries(paths, results) == Issued(results)
  {
    if results != [] {
      IssuedBound(paths, results[..|results| - 1]);
    }
  }

  /** However the command concludes, it has been issued at most once more than there are retries, and a device with a
      single path has been tried no more often than that; failure means that the retries are used up. */
  lemma AttemptBounds(paths: nat, env: seq<Attempt>, results: seq<Result>, limit: nat, r: Outcome)
    requires Concludes(paths, env, results, limit, r)
    ensures Issued(results) <= limit + 1
    ensures paths <= 1 ==> |results| <= limit + 1
    ensures r.Finished? && r.rc != 0 && paths <= 1 ==> |results| == limit + 1
    ensures r.Finished? && r.rc != 0 && paths > 1 ==> Issued(results) == limit + 1
    ensures r == Finished(0) ==> Issued(results) > 0
  {
    if results == [] {
      return;
    }
    hide Retries, Issued, Fails;
    var front, last := results[..|results| - 1], results[|results| - 1];
    assert front + [last] == results;
    OneMoreResult(paths, front, last);
    IssuedBound(paths, front);
    if r.Finished? && r.rc != 0 {
      IssuedBound(paths, results);
    }
  }

  lemma OneMoreTried(states: seq<San>, env: seq<Attempt>, results: seq<Result>, r: Result, t: San)
    requires Trace(states, env, results) && |results| < |env| && Tried(states[|results|], env[|results|], r, t)
    ensures Trace(states + [t], env, results + [r])
  {
    hide Tried;
  }

  lemma OneMoreResult(paths: nat, results: seq<Result>, r: Result)
    ensures Retries(paths, results + [r]) == Retries(paths, results) + if r.NotReopened? && paths > 1 then 0 else 1
    ensures Issued(results + [r]) == Issued(results) + if r.NotInitiated? || r.Completed? || r.AwaitingCommand? then 1 else 0
    ensures (results + [r])[..|results|] == results
  {
    assert (results + [r])[..|results|] == results;
  }
}
