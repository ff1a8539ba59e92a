/** sanboot.c: the SAN device as it is updated in place by its paths, by the reopening loop and by commands. */
module SanDevice {
  import opened Options
  import opened Lists
  import opened SanPaths
  import opened SanCommands

  /** Each step of the system brings at most one event. */
  ghost predicate Single(schedule: seq<seq<Event>>) {
    forall k :: 0 <= k < |schedule| ==> |schedule[k]| <= 1
  }

  /** The paths in the order in which they are allocated. */
  function Numbered(n: nat): seq<nat> {
    if n == 0 then [] else Numbered(n - 1) + [n - 1]
  }

  lemma {:induction false} NumberedAll(n: nat)
    ensures Distinct(Numbered(n)) && forall i :: i in Numbered(n) <==> 0 <= i < n
  {
    if n > 0 {
      NumberedAll(n - 1);
      AppendDistinct(Numbered(n - 1), n - 1);
    }
  }

  class Device {
    const paths: nat
    var openPaths: seq<nat>
    var closedPaths: seq<nat>
    var active: Option<nat>
    var status: map<nat, int>
    var commandRc: int
    var timer: bool

    /** alloc_sandev: every path starts out closed. */
    constructor (count: nat)
      ensures Valid() && paths == count && openPaths == [] && active == None && !timer
    {
      paths := count;
      openPaths := [];
      closedPaths := Numbered(count);
      active := None;
      status := map i | i in Numbered(count) :: 0;
      commandRc := 0;
      timer := false;
      new;
      NumberedAll(count);
      hide Numbered;
    }

    ghost function Now(): San
      reads this
    {
      San(paths, openPaths, closedPaths, active, status, commandRc, timer)
    }

    ghost predicate Valid()
      reads this
    {
      Consistent(Now())
    }

    /** sandev_command_close. */
    method CommandClose(rc: int)
      requires Valid()
      modifies this
      ensures Now() == CloseCommand(old(Now()), rc) && Valid()
    {
      timer := false;
      commandRc := rc;
    }

    /** sanpath_close. */
    method PathClose(i: nat, rc: int)
      requires Listed(Now()) && Statuses(Now(), Some(i)) && i < paths
      modifies this
      ensures Now() == ClosePath(old(Now()), i, rc) && Valid()
    {
      CloseKeeps(Now(), i, rc);
      hide Distinct, Without;
      status := status[i := rc];
      openPaths, closedPaths := Without(openPaths, i), Without(closedPaths, i) + [i];
      if active == Some(i) {
        active := None;
        timer := false;
        commandRc := rc;
      }
    }

    /** sanpath_open: rc is the status of opening the URI. */
    method PathOpen(i: nat, rc: int) returns (r: int)
      requires Valid() && i in closedPaths
      modifies this
      ensures r == rc && Valid()
      ensures Now() == if rc != 0 then old(Now()) else OpenPath(old(Now()), i)
    {
      if rc != 0 {
        return rc;
      }
      OpenKeeps(Now(), i);
      hide Distinct, Without;
      openPaths, closedPaths := Without(openPaths, i) + [i], Without(closedPaths, i);
      status := status[i := EINPROGRESS];
      return 0;
    }

    /** sanpath_step. */
    method PathStep(i: nat, window: bool)
      requires Valid() && i in openPaths
      modifies this
      ensures Now() == StepPath(old(Now()), i, window) && Valid()
    {
      StepKeeps(Now(), i, window);
      hide Distinct, Without, Consistent;
      if active == Some(i) {
        return;
      }
      if !window {
        return;
      }
      status := status[i := 0];
      if active == None {
        active := Some(i);
      } else {
        StatusKeeps(old(Now()), i);
        PathClose(i, 0);
      }
    }

    /** One event. */
    method Receive(e: Event)
      requires Valid()
      modifies this
      ensures Now() == Deliver(old(Now()), e) && Valid() && (!old(timer) ==> !timer)
    {
      DeliverKeeps(Now(), e);
      hide Distinct, Without, Consistent;
      match e {
        case Step(i, window) =>
          if i in openPaths {
            PathStep(i, window);
          }
        case BlockClosed(i, rc) =>
          if i in openPaths {
            OpenIsPath(Now(), i);
            PathClose(i, if rc == 0 then ENOTCONN else rc);
          }
        case CommandClosed(rc) =>
          CommandClose(rc);
        case Expired =>
          if timer {
            CommandClose(ETIMEDOUT);
          }
      }
    }

    /** One step of the system, with whatever it brings. */
    method SystemStep(events: seq<Event>)
      requires Valid()
      modifies this
      ensures Now() == Run(old(Now()), events) && Valid() && (!old(timer) ==> !timer)
      decreases |events|
    {
      hide Consistent, Deliver;
      if events != [] {
        Receive(events[0]);
        SystemStep(events[1..]);
      }
    }

    /** sandev_restart. */
    method RestartDevice(rc: int)
      requires Valid()
      modifies this
      ensures Now() == Restart(old(Now()), rc) && Valid() && openPaths == [] && active == None && !timer
    {
      RestartEnds(Now(), rc);
      hide Consistent, ClosePath;
      while openPaths != []
        invariant Valid() && CloseAll(Now(), rc) == CloseAll(old(Now()), rc)
        decreases |openPaths|
      {
        OpenIsPath(Now(), openPaths[0]);
        FirstCloses(Now(), rc);
        PathClose(openPaths[0], rc);
      }
      active := None;
      ClearedKeeps(Now().(active := None));
      CommandClose(rc);
    }

    /** Open all paths: the first loop of sandev_reopen. */
    method OpenAll(opening: map<nat, int>) returns (rc: int)
      requires Valid() && openPaths == [] && active == None
      modifies this
      ensures Valid() && active == None && timer == old(timer)
      ensures rc == FirstFailure(old(closedPaths), opening)
      ensures rc == 0 ==> closedPaths == []
    {
      hide Consistent, OpenPath;
      while closedPaths != []
        invariant Valid() && active == None && timer == old(timer)
        invariant FirstFailure(closedPaths, opening) == FirstFailure(old(closedPaths), opening)
        decreases |closedPaths|
      {
        var i := closedPaths[0];
        OpenShrinks(Now());
        rc := PathOpen(i, if i in opening then opening[i] else 0);
        if rc != 0 {
          return;
        }
      }
      rc := 0;
    }

    /** sandev_reopen. The result is the first failure to open a path or else, from a state `start` in which
        every path is open, what comes of waiting. */
    method Reopen(a: Attempt) returns (r: Outcome, ghost start: San)
      requires Valid()
      modifies this
      ensures Valid() && r != NoActivePath && !timer
      ensures r.Finished? && r.rc != 0 ==> openPaths == [] && active == None && commandRc == r.rc
      ensures var first := FirstFailure(Restart(old(Now()), ECONNRESET).closedPaths, a.opening);
        if first != 0 then r == Finished(first)
        else
          && Fresh(start, paths)
          && r == (var w := Wait(start, a.waiting); if w.None? then Blocked else Finished(WaitResult(w.value)))
          && (active.Some? ==> Wait(start, a.waiting) == Some(Now()))
          && (r.Finished? && active.None? ==>
                && Wait(start, a.waiting).value.openPaths == []
                && r.rc == if paths == 0 then ENODEV else FailureOf(paths, a.waiting))
          && (r == Finished(0) && active.None? <==>
                Wait(start, a.waiting).Some? && Wait(start, a.waiting).value.openPaths == []
                && SurplusFirst(paths, None, Flat(a.waiting)))
      ensures paths < 2 || Single(a.waiting) ==> (r == Finished(0) ==> active.Some?)
    {
      hide Consistent, Run, Restart, AllFailed, Single, FirstFailure, FirstClosing, FailureOf, Flat;
      start := Now();
      RestartDevice(ECONNRESET);
      var rc := OpenAll(a.opening);
      if rc != 0 {
        RestartEnds(Now(), rc);
        RestartDevice(rc);
        return Finished(rc), start;
      }
      start := Now();
      NoneFailed(start);
      if Wait(start, a.waiting).Some? {
        WaitKeeps(start, a.waiting);
        SuccessWithoutPath(start, a.waiting);
      }
      if paths < 2 {
        FewPaths(paths, None, Flat(a.waiting));
      }
      if Single(a.waiting) {
        SingleSuccess(start, a.waiting);
      }
      var k := 0;
      while active == None
        invariant 0 <= k <= |a.waiting| && Valid() && !timer
        invariant Wait(Now(), a.waiting[k..]) == Wait(start, a.waiting)
        decreases |a.waiting| - k
      {
        if k == |a.waiting| {
          return Blocked, start;
        }
        assert a.waiting[k..][0] == a.waiting[k] && a.waiting[k..][1..] == a.waiting[k + 1..];
        SystemStep(a.waiting[k]);
        k := k + 1;
        if openPaths == [] {
          EmptyIsInactive(Now());
          rc := if closedPaths == [] || closedPaths[0] !in status then ENODEV else status[closedPaths[0]];
          RestartEnds(Now(), rc);
          RestartDevice(rc);
          return Finished(rc), start;
        }
      }
      ActiveIsOpen(Now());
      return Finished(0), start;
    }

    /** Wait until the command's timer has stopped; false if the events run out first. */
    method AwaitCommand(running: seq<seq<Event>>) returns (done: bool)
      requires Valid()
      modifies this
      ensures Valid() && done == !timer && Now() == Await(old(Now()), running)
      ensures old(timer) && old(active).Some? ==>
                if done then EndsWith(old(active).value, running, commandRc)
                else EndStep(old(active).value, running) == |running|
    {
      hide Consistent, Run;
      if timer && active.Some? {
        AwaitEnds(Now(), active.value, running);
      }
      var k := 0;
      while timer && k < |running|
        invariant 0 <= k <= |running| && Valid()
        invariant Await(Now(), running[k..]) == Await(old(Now()), running)
      {
        assert running[k..][0] == running[k] && running[k..][1..] == running[k + 1..];
        SystemStep(running[k]);
        k := k + 1;
      }
      return !timer;
    }

    /** sandev_command: at most `limit` retries. The states and results tell what each attempt did. */
    method Command(env: seq<Attempt>, limit: nat)
      returns (r: Outcome, attempts: nat, issued: nat, ghost states: seq<San>, ghost results: seq<Result>)
      requires Valid() && !timer
      modifies this
      ensures Valid() && (r.Finished? ==> !timer)
      ensures Trace(states, env, results) && states[0] == old(Now()) && states[|results|] == Now()
      ensures Concludes(paths, env, results, limit, r) && attempts == |results| && issued == Issued(results)
      ensures issued <= limit + 1
      ensures paths <= 1 ==> attempts <= limit + 1
      ensures r.Finished? && r.rc != 0 ==> if paths <= 1 then attempts == limit + 1 else issued == limit + 1
      ensures r == Finished(0) ==>
        && attempts > 0 && results[attempts - 1].Completed?
        && var p, running := results[attempts - 1].path, env[attempts - 1].running;
           && EndsWith(p, running, 0)
           && exists j: nat :: ClosesWell(p, running[EndStep(p, running)], j)
      ensures paths < 2 || (forall k :: 0 <= k < |env| ==> Single(env[k].waiting)) ==> r != NoActivePath
    {
      hide Consistent, Trace, Tried, Retries, Issued, EndsWith, ClosesWell, Single;
      var retries := 0;
      attempts, issued := 0, 0;
      states, results := [Now()], [];
      TraceStart(Now(), env, paths);
      while true
        invariant Valid() && !timer && Trace(states, env, results)
        invariant |states| == attempts + 1 && states[0] == old(Now()) && states[attempts] == Now()
        invariant attempts == |results| <= |env| && issued == Issued(results)
        invariant retries == Retries(paths, results) && Retrying(paths, results, limit)
        decreases |env| - attempts
      {
        if attempts == |env| {
          r := Blocked;
          OutOfAttempts(paths, env, results, limit);
          break;
        }
        var result := Try(env[attempts]);
        OneMoreTried(states, env, results, result, Now());
        OneMoreResult(paths, results, result);
        states, results := states + [Now()], results + [result];
        attempts := attempts + 1;
        if result.WithoutPath? {
          r := NoActivePath;
          break;
        }
        if result.AwaitingPath? {
          r := Blocked;
          break;
        }
        if !result.NotReopened? {
          issued := issued + 1;
        }
        if result.AwaitingCommand? {
          r := Blocked;
          break;
        }
        if result.Completed? && result.rc == 0 {
          CompletedWell(states[attempts - 1], env[attempts - 1], result, Now());
          r := Finished(0);
          break;
        }
        if !result.NotReopened? || paths <= 1 {
          retries := retries + 1;
        }
        if retries > limit {
          r := Finished(result.rc);
          break;
        }
      }
      AttemptBounds(paths, env, results, limit, r);
    }

    /** One iteration of the command loop: reopen the device if need be, issue the command, wait for it to end. */
    method Try(a: Attempt) returns (result: Result)
      requires Valid() && !timer
      modifies this
      ensures Valid() && (timer <==> result.AwaitingCommand?)
      ensures Tried(old(Now()), a, result, Now())
      ensures Fails(result) || result.WithoutPath? || result.AwaitingPath? || result.AwaitingCommand?
              || (result.Completed? && result.rc == 0)
      ensures paths < 2 || Single(a.waiting) ==> !result.WithoutPath?
    {
      hide Consistent, Run, Single, FirstClosing, Flat, Wait, Restart, FirstFailure, EndsWith, FailureOf;
      if active == None {
        var r; ghost var start;
        r, start := Reopen(a);
        if r.Blocked? {
          return AwaitingPath;
        }
        if r.rc != 0 {
          return NotReopened(r.rc);
        }
        if active == None {
          return WithoutPath;
        }
      }
      var p := active.value;
      assert IssuedTo(old(Now()), a, p);
      if a.initiating != 0 {
        return NotInitiated(p, a.initiating);
      }
      timer := true;
      TimerKeeps(Now());
      AwaitEnds(Now(), p, a.running);
      var done := AwaitCommand(a.running);
      if !done {
        return AwaitingCommand(p);
      }
      return Completed(p, commandRc);
    }
  }

  lemma TraceStart(s: San, env: seq<Attempt>, paths: nat)
    ensures Trace([s], env, []) && Retries(paths, []) == 0 && Issued([]) == 0
  {
  }

  /** The attempts given are used up without a conclusion. */
  lemma OutOfAttempts(paths: nat, env: seq<Attempt>, results: seq<Result>, limit: nat)
    requires Retrying(paths, results, limit) && |results| == |env|
    ensures Concludes(paths, env, results, limit, Blocked)
  {
    if results != [] {
      assert results[..|results| - 1] + [results[|results| - 1]] == results;
      OneMoreResult(paths, results[..|results| - 1], results[|results| - 1]);
      hide Retries;
    }
  }

  lemma CompletedWell(s: San, a: Attempt, r: Result, t: San)
    requires Tried(s, a, r, t) && r.Completed? && r.rc == 0
    ensures EndsWith(r.path, a.running, 0)
    ensures exists j: nat :: ClosesWell(r.path, a.running[EndStep(r.path, a.running)], j)
  {
    hide Consistent, EndsWith, IssuedTo;
    SuccessIsClosed(r.path, a.running);
  }

  lemma TimerKeeps(s: San)
    ensures Consistent(s.(timer := false)) <==> Consistent(s)
  {
  }

  lemma OpenShrinks(s: San)
    requires Consistent(s) && s.closedPaths != []
    ensures s.closedPaths[0] in s.closedPaths
    ensures var t := OpenPath(s, s.closedPaths[0]);
      t.closedPaths == s.closedPaths[1..] && t.active == s.active && t.timer == s.timer
  {
    WithoutFirst(s.closedPaths);
  }

  lemma NoneFailed(s: San)
    requires s.closedPaths == []
    ensures AllFailed(s)
  {
  }

  lemma SingleSuccess(s: San, schedule: seq<seq<Event>>)
    requires Consistent(s) && s.active.None? && AllFailed(s) && Single(schedule)
    ensures Wait(s, schedule).Some? ==> (WaitResult(Wait(s, schedule).value) == 0 <==> Wait(s, schedule).value.active.Some?)
  {
    hide Consistent, AllFailed;
    SuccessIsActive(s, schedule);
  }

  lemma OpenIsPath(s: San, i: nat)
    requires Consistent(s) && i in s.openPaths
    ensures i < s.paths
  {
  }

  lemma WithoutFirst(cs: seq<nat>)
    requires Distinct(cs) && cs != []
    ensures Without(cs, cs[0]) == cs[1..]
  {
    assert forall j :: 0 < j < |cs| ==> cs[j] != cs[0];
    assert cs[0] !in cs[1..];
    WithoutAbsent(cs[1..], cs[0]);
  }

  lemma StatusKeeps(s: San, i: nat)
    requires Consistent(s) && i in s.openPaths
    ensures var t := s.(status := s.status[i := 0]); Listed(t) && Statuses(t, Some(i)) && i < s.paths
  {
    hide Distinct;
  }

  lemma FirstCloses(s: San, rc: int)
    requires Consistent(s) && s.openPaths != []
    ensures var t := ClosePath(s, s.openPaths[0], rc);
      |t.openPaths| < |s.openPaths| && CloseAll(s, rc) == CloseAll(t, rc)
  {
    hide Without;
    assert s.openPaths[0] in s.openPaths;
    WithoutShrinks(s.openPaths, s.openPaths[0]);
  }

  lemma ClearedKeeps(s: San)
    requires Consistent(s) && s.openPaths == []
    ensures Consistent(s.(active := None))
  {
  }
}
