/** The paths of a SAN device: opening, becoming active, closing, and the command retry loop of sanboot.c. */
module SanPaths {
  import opened Options
  import opened Lists

  const EINPROGRESS := -115
  const ENOTCONN := -107
  const ECONNRESET := -104
  const ENODEV := -19
  const ETIMEDOUT := -110

  /** A SAN device: the lists its paths are on, the active path, the status of each path, and the status and
      timer of the current command. */
  datatype San = San(paths: nat, openPaths: seq<nat>, closedPaths: seq<nat>, active: Option<nat>, status: map<nat, int>,
                     commandRc: int, timer: bool)

  /** Each path is on exactly one list, once, and the active path is open. */
  ghost predicate Listed(s: San) {
    && Distinct(s.openPaths) && Distinct(s.closedPaths)
    && (forall i :: i in s.openPaths || i in s.closedPaths ==> i < s.paths)
    && (forall i :: 0 <= i < s.paths ==> (i in s.openPaths) != (i in s.closedPaths) && i in s.status)
    && (s.active.Some? ==> s.active.value in s.openPaths)
  }

  /** Of the open paths, leaving out one, the active path has status zero and every other is in progress. */
  ghost predicate Statuses(s: San, but: Option<nat>) {
    forall i :: i in s.openPaths && Some(i) != but ==>
      i in s.status && s.status[i] == if s.active == Some(i) then 0 else EINPROGRESS
  }

  /** What holds between any two events. */
  ghost predicate Consistent(s: San) {
    Listed(s) && Statuses(s, None)
  }

  //////////////////////////////////////////////////////////////////////////////
  // Steps
  //////////////////////////////////////////////////////////////////////////////

  /** sandev_command_close. */
  function CloseCommand(s: San, rc: int): San {
    s.(commandRc := rc, timer := false)
  }

  /** sanpath_close. */
  function ClosePath(s: San, i: nat, rc: int): San {
    var t := s.(openPaths := Without(s.openPaths, i), closedPaths := Without(s.closedPaths, i) + [i], status := s.status[i := rc]);
    if s.active == Some(i) then CloseCommand(t.(active := None), rc) else t
  }

  /** sanpath_open, once the URI has been opened. */
  function OpenPath(s: San, i: nat): San {
    s.(openPaths := Without(s.openPaths, i) + [i], closedPaths := Without(s.closedPaths, i), status := s.status[i := EINPROGRESS])
  }

  /** sanpath_step: the first path to become available is active, any other is closed again. */
  function StepPath(s: San, i: nat, window: bool): San {
    if s.active == Some(i) || !window then s
    else
      var t := s.(status := s.status[i := 0]);
      if s.active.None? then t.(active := Some(i)) else ClosePath(t, i, 0)
  }

  /** What can happen while the system waits. */
  datatype Event = Step(path: nat, window: bool) | BlockClosed(path: nat, rc: int) | CommandClosed(rc: int) | Expired

  /** A path's process and interface are live only while the path is open; anything else has no effect. */
  function Deliver(s: San, e: Event): San {
    match e
    case Step(i, window) => if i in s.openPaths then StepPath(s, i, window) else s
    case BlockClosed(i, rc) => if i in s.openPaths then ClosePath(s, i, if rc == 0 then ENOTCONN else rc) else s
    case CommandClosed(rc) => CloseCommand(s, rc)
    case Expired => if s.timer then CloseCommand(s, ETIMEDOUT) else s
  }

  function Run(s: San, events: seq<Event>): San
    decreases |events|
  {
    if events == [] then s else Run(Deliver(s, events[0]), events[1..])
  }

  //////////////////////////////////////////////////////////////////////////////
  // Every step keeps the paths consistent
  //////////////////////////////////////////////////////////////////////////////

  lemma AppendDistinct(xs: seq<nat>, i: nat)
    requires Distinct(xs) && i !in xs
    ensures Distinct(xs + [i])
  {
  }

  lemma CloseKeeps(s: San, i: nat, rc: int)
    requires Listed(s) && Statuses(s, Some(i)) && i < s.paths
    ensures Consistent(ClosePath(s, i, rc))
  {
    hide Without, Distinct, Listed, Statuses;
    CloseListed(s, i, rc);
    CloseStatuses(s, i, rc);
  }

  lemma CloseListed(s: San, i: nat, rc: int)
    requires Listed(s) && i < s.paths
    ensures Listed(ClosePath(s, i, rc))
  {
    WithoutDistinct(s.openPaths, i);
    WithoutDistinct(s.closedPaths, i);
    AppendDistinct(Without(s.closedPaths, i), i);
    hide Without, Distinct;
  }

  lemma CloseStatuses(s: San, i: nat, rc: int)
    requires Statuses(s, Some(i))
    ensures Statuses(ClosePath(s, i, rc), None)
  {
    hide Without;
  }

  lemma OpenKeeps(s: San, i: nat)
    requires Consistent(s) && i in s.closedPaths
    ensures Consistent(OpenPath(s, i))
  {
    WithoutDistinct(s.openPaths, i);
    WithoutDistinct(s.closedPaths, i);
    AppendDistinct(Without(s.openPaths, i), i);
    hide Without, Distinct;
  }

  lemma StepKeeps(s: San, i: nat, window: bool)
    requires Consistent(s) && i in s.openPaths
    ensures Consistent(StepPath(s, i, window))
  {
    hide Distinct;
    if s.active.Some? && s.active != Some(i) && window {
      CloseKeeps(s.(status := s.status[i := 0]), i, 0);
    }
  }

  lemma DeliverKeeps(s: San, e: Event)
    requires Consistent(s)
    ensures Consistent(Deliver(s, e)) && Deliver(s, e).paths == s.paths
  {
    hide Distinct, Without;
    match e {
      case Step(i, window) =>
        if i in s.openPaths {
          StepKeeps(s, i, window);
        }
      case BlockClosed(i, rc) =>
        if i in s.openPaths {
          CloseKeeps(s, i, if rc == 0 then ENOTCONN else rc);
        }
      case CommandClosed(rc) =>
      case Expired =>
    }
  }

  /** In every state that events can lead to, the paths are consistent. */
  lemma {:induction false} RunKeeps(s: San, events: seq<Event>)
    requires Consistent(s)
    ensures Consistent(Run(s, events)) && Run(s, events).paths == s.paths
    decreases |events|
  {
    hide Consistent;
    if events != [] {
      DeliverKeeps(s, events[0]);
      RunKeeps(Deliver(s, events[0]), events[1..]);
    }
  }

  /** sandev_restart: close every open path, then the command. */
  function CloseAll(s: San, rc: int): San
    decreases |s.openPaths|
  {
    if s.openPaths == [] then s else
      var t := ClosePath(s, s.openPaths[0], rc);
      if |t.openPaths| < |s.openPaths| then CloseAll(t, rc) else t
  }

  function Restart(s: San, rc: int): San {
    CloseCommand(CloseAll(s, rc).(active := None), rc)
  }

  lemma {:induction false} WithoutShrinks(cs: seq<nat>, s: nat)
    requires Distinct(cs) && s in cs
    ensures |Without(cs, s)| == |cs| - 1
  {
    WithoutMultiset(cs, s);
    assert |multiset(cs)| == |cs|;
    assert |multiset(Without(cs, s))| == |Without(cs, s)|;
  }

  lemma {:induction false} CloseAllKeeps(s: San, rc: int)
    requires Consistent(s)
    ensures Consistent(CloseAll(s, rc)) && CloseAll(s, rc).openPaths == [] && CloseAll(s, rc).paths == s.paths
    ensures CloseAll(s, rc).active == None
    decreases |s.openPaths|
  {
    hide Distinct, Without;
    if s.openPaths != [] {
      var i := s.openPaths[0];
      assert i in s.openPaths;
      CloseKeeps(s, i, rc);
      WithoutShrinks(s.openPaths, i);
      CloseAllKeeps(ClosePath(s, i, rc), rc);
    }
  }

  /** After a restart nothing is open, nothing is active, and the command is over. */
  lemma RestartEnds(s: San, rc: int)
    requires Consistent(s)
    ensures var t := Restart(s, rc);
      Consistent(t) && t.openPaths == [] && t.active == None && !t.timer && t.commandRc == rc && t.paths == s.paths
  {
    hide Distinct, Without, CloseAll;
    CloseAllKeeps(s, rc);
  }

  //////////////////////////////////////////////////////////////////////////////
  // Waiting for a path
  //////////////////////////////////////////////////////////////////////////////

  /** The waiting loop of sandev_reopen over the events that each step of the system brings: it ends with an
      active path, or with none open, or not at all. */
  function Wait(s: San, schedule: seq<seq<Event>>): Option<San>
    decreases |schedule|
  {
    if s.active.Some? then Some(s)
    else if schedule == [] then None
    else
      var t := Run(s, schedule[0]);
      if t.openPaths == [] then Some(t) else Wait(t, schedule[1..])
  }

  /** The status of the path that was closed first. */
  function FirstStatus(s: San): int {
    if s.closedPaths == [] || s.closedPaths[0] !in s.status then ENODEV else s.status[s.closedPaths[0]]
  }

  /** What sandev_reopen returns once the waiting is over. */
  function WaitResult(s: San): int {
    if s.active.Some? then 0 else FirstStatus(s)
  }

  lemma {:induction false} WaitKeeps(s: San, schedule: seq<seq<Event>>)
    requires Consistent(s)
    ensures var w := Wait(s, schedule);
      w.Some? ==> Consistent(w.value) && w.value.paths == s.paths && (w.value.active.Some? || w.value.openPaths == [])
    decreases |schedule|
  {
    hide Consistent, Run;
    if s.active.None? && schedule != [] {
      RunKeeps(s, schedule[0]);
      var t := Run(s, schedule[0]);
      if t.openPaths != [] {
        WaitKeeps(t, schedule[1..]);
      }
    }
  }

  //////////////////////////////////////////////////////////////////////////////
  // When success means an active path
  //////////////////////////////////////////////////////////////////////////////

  /** The events of all steps, in order. */
  ghost function Flat(schedule: seq<seq<Event>>): seq<Event> {
    if schedule == [] then [] else schedule[0] + Flat(schedule[1..])
  }

  /** With every path open: the status of the first path that an event closes, if any. A path that becomes available
      while another one is active is closed with status zero. This depends on the number of paths and the events
      only. */
  ghost function FirstClosing(paths: nat, active: Option<nat>, events: seq<Event>): Option<int>
    decreases |events|
  {
    if events == [] then None else
      var e, rest := events[0], events[1..];
      if Available(paths, e) then
        if active.None? then FirstClosing(paths, Some(e.path), rest)
        else if active != Some(e.path) then Some(0)
        else FirstClosing(paths, active, rest)
      else if Lost(paths, e) then Some(LossOf(e.rc))
      else FirstClosing(paths, active, rest)
  }

  /** The status recorded for a path whose connection closed: never success. */
  ghost function LossOf(rc: int): int {
    if rc == 0 then ENOTCONN else rc
  }

  /** The first path to be closed was surplus. */
  ghost predicate SurplusFirst(paths: nat, active: Option<nat>, events: seq<Event>) {
    FirstClosing(paths, active, events) == Some(0)
  }

  predicate Available(paths: nat, e: Event) {
    e.Step? && e.window && e.path < paths
  }

  predicate Lost(paths: nat, e: Event) {
    e.BlockClosed? && e.path < paths
  }

  lemma FirstEvent(s: San, e: Event)
    requires Consistent(s) && s.closedPaths == []
    ensures var t := Deliver(s, e);
      if Available(s.paths, e) && s.active.Some? && s.active != Some(e.path) then
        t.closedPaths == [e.path] && e.path in t.status && t.status[e.path] == 0
      else if Lost(s.paths, e) then
        t.closedPaths == [e.path] && e.path in t.status && t.status[e.path] == LossOf(e.rc)
      else
        t.closedPaths == [] && t.active == if Available(s.paths, e) && s.active.None? then Some(e.path) else s.active
  {
    hide Distinct;
    if e.Step? || e.BlockClosed? {
      assert e.path in s.openPaths <==> e.path < s.paths;
    }
  }

  /** The path that was closed first stays the first, with its status. */
  lemma LaterEvent(s: San, e: Event)
    requires Consistent(s) && s.closedPaths != []
    ensures Deliver(s, e).closedPaths != [] && FirstStatus(Deliver(s, e)) == FirstStatus(s)
  {
    hide Distinct;
    assert s.closedPaths[0] in s.closedPaths;
    if (e.Step? || e.BlockClosed?) && e.path in s.openPaths {
      assert e.path !in s.closedPaths;
      WithoutAbsent(s.closedPaths, e.path);
      hide Without;
    }
  }

  lemma {:induction false} LaterEvents(s: San, events: seq<Event>)
    requires Consistent(s) && s.closedPaths != []
    ensures Run(s, events).closedPaths != [] && FirstStatus(Run(s, events)) == FirstStatus(s)
    decreases |events|
  {
    hide Consistent, Deliver, FirstStatus;
    if events != [] {
      LaterEvent(s, events[0]);
      DeliverKeeps(s, events[0]);
      LaterEvents(Deliver(s, events[0]), events[1..]);
    }
  }

  /** Events from the moment every path is open. */
  lemma {:induction false} SurplusRun(s: San, xs: seq<Event>, ys: seq<Event>)
    requires Consistent(s) && s.closedPaths == []
    ensures var t := Run(s, xs);
      FirstClosing(s.paths, s.active, xs + ys)
      == if t.closedPaths == [] then FirstClosing(s.paths, t.active, ys) else Some(FirstStatus(t))
    decreases |xs|
  {
    hide Consistent, Deliver;
    if xs == [] {
      assert xs + ys == ys;
    } else {
      var t := Deliver(s, xs[0]);
      assert (xs + ys)[0] == xs[0] && (xs + ys)[1..] == xs[1..] + ys;
      FirstEvent(s, xs[0]);
      DeliverKeeps(s, xs[0]);
      if t.closedPaths == [] {
        SurplusRun(t, xs[1..], ys);
      } else {
        LaterEvents(t, xs[1..]);
      }
    }
  }

  lemma {:induction false} LaterWait(s: San, schedule: seq<seq<Event>>)
    requires Consistent(s) && s.closedPaths != [] && Wait(s, schedule).Some?
    ensures FirstStatus(Wait(s, schedule).value) == FirstStatus(s)
    decreases |schedule|
  {
    hide Consistent, Run, FirstStatus;
    if s.active.None? {
      RunKeeps(s, schedule[0]);
      LaterEvents(s, schedule[0]);
      if Run(s, schedule[0]).openPaths != [] {
        LaterWait(Run(s, schedule[0]), schedule[1..]);
      }
    }
  }

  lemma {:induction false} SurplusWait(s: San, schedule: seq<seq<Event>>)
    requires Consistent(s) && s.closedPaths == [] && s.active.None? && Wait(s, schedule).Some?
    requires Wait(s, schedule).value.openPaths == []
    ensures FirstClosing(s.paths, None, Flat(schedule))
         == if s.paths == 0 then None else Some(FirstStatus(Wait(s, schedule).value))
    ensures s.paths == 0 ==> FirstStatus(Wait(s, schedule).value) == ENODEV
    decreases |schedule|
  {
    hide Consistent, Run, FirstClosing;
    var t := Run(s, schedule[0]);
    RunKeeps(s, schedule[0]);
    SurplusRun(s, schedule[0], Flat(schedule[1..]));
    if t.openPaths == [] {
      if t.closedPaths == [] {
        NoPaths(t);
        NothingCloses(t.active, Flat(schedule[1..]));
      } else {
        SomePaths(t);
      }
    } else if t.active.Some? {
      ActiveIsOpen(t);
      assert false;
    } else if t.closedPaths == [] {
      SurplusWait(t, schedule[1..]);
    } else {
      SomePaths(t);
      LaterWait(t, schedule[1..]);
    }
  }

  lemma NoPaths(s: San)
    requires Consistent(s) && s.openPaths == [] && s.closedPaths == []
    ensures s.paths == 0 && s.active.None?
  {
    assert s.paths > 0 ==> 0 in s.openPaths || 0 in s.closedPaths;
  }

  lemma SomePaths(s: San)
    requires Consistent(s) && s.closedPaths != []
    ensures s.paths > 0
  {
    assert s.closedPaths[0] in s.closedPaths;
  }

  lemma {:induction false} NothingCloses(active: Option<nat>, events: seq<Event>)
    ensures FirstClosing(0, active, events) == None
    decreases |events|
  {
    if events != [] {
      NothingCloses(active, events[1..]);
    }
  }

  lemma ActiveIsOpen(s: San)
    requires Consistent(s) && s.active.Some?
    ensures s.openPaths != []
  {
  }

  /** No path is ever surplus on a device that has one only. */
  lemma {:induction false} FewPaths(paths: nat, active: Option<nat>, events: seq<Event>)
    requires paths < 2 && (active.Some? ==> active.value < paths)
    ensures FirstClosing(paths, active, events) != Some(0)
    decreases |events|
  {
    if events != [] {
      var e, rest := events[0], events[1..];
      FewPaths(paths, active, rest);
      if Available(paths, e) {
        FewPaths(paths, Some(e.path), rest);
      }
    }
  }

  /** sandev_reopen waits with every path open. It reports success without an active path exactly when all
      paths end up closed and the first to be closed was surplus. */
  lemma SuccessWithoutPath(s: San, schedule: seq<seq<Event>>)
    requires Consistent(s) && s.closedPaths == [] && s.active.None? && Wait(s, schedule).Some?
    ensures var t := Wait(s, schedule).value;
      WaitResult(t) == 0 && t.active.None? <==> t.openPaths == [] && SurplusFirst(s.paths, None, Flat(schedule))
    ensures var t := Wait(s, schedule).value;
      t.active.None? ==> WaitResult(t) == if s.paths == 0 then ENODEV else FailureOf(s.paths, schedule)
  {
    hide Consistent, Run, FirstClosing, Wait;
    WaitKeeps(s, schedule);
    var t := Wait(s, schedule).value;
    if t.active.Some? {
      ActiveIsOpen(t);
    } else {
      SurplusWait(s, schedule);
    }
  }

  /** What comes of waiting in vain: the status of the first path that was closed. */
  ghost function FailureOf(paths: nat, schedule: seq<seq<Event>>): int {
    var first := FirstClosing(paths, None, Flat(schedule));
    if first.Some? then first.value else 0
  }

  /** Close each of the first n paths. */
  ghost function CloseEach(n: nat): seq<Event> {
    if n == 0 then [] else CloseEach(n - 1) + [BlockClosed(n - 1, ECONNRESET)]
  }

  lemma {:induction false} RunAppend(s: San, xs: seq<Event>, ys: seq<Event>)
    ensures Run(s, xs + ys) == Run(Run(s, xs), ys)
    decreases |xs|
  {
    hide Deliver;
    if xs == [] {
      assert xs + ys == ys;
    } else {
      assert (xs + ys)[1..] == xs[1..] + ys;
      RunAppend(Deliver(s, xs[0]), xs[1..], ys);
    }
  }

  lemma {:induction false} EachCloses(s: San, n: nat)
    requires Consistent(s)
    ensures forall i :: i in Run(s, CloseEach(n)).openPaths ==> i >= n
  {
    hide Consistent, Run, Deliver;
    if n > 0 {
      var e, t := BlockClosed(n - 1, ECONNRESET), Run(s, CloseEach(n - 1));
      EachCloses(s, n - 1);
      RunAppend(s, CloseEach(n - 1), [e]);
      ShortRun(t, [e]);
      OneCloses(t, n - 1, ECONNRESET);
    }
  }

  lemma OneCloses(s: San, i: nat, rc: int)
    ensures forall j :: j in Deliver(s, BlockClosed(i, rc)).openPaths ==> j in s.openPaths && j != i
  {
    hide Without;
  }

  /** All in one step: the first path becomes active, the second is available and closed, and then every path
      is closed. */
  ghost function Unlucky(paths: nat): seq<Event> {
    [Step(0, true), Step(1, true)] + CloseEach(paths)
  }

  /** It happens on every device that has two paths or more. */
  lemma SuccessWithoutPathExample(s: San)
    requires Consistent(s) && s.closedPaths == [] && s.active.None? && s.paths >= 2
    ensures var w := Wait(s, [Unlucky(s.paths)]); w.Some? && w.value.active.None? && WaitResult(w.value) == 0
  {
    var first, rest := [Step(0, true), Step(1, true)], CloseEach(s.paths);
    RunKeeps(s, first);
    RunKeeps(s, first + rest);
    EachCloses(Run(s, first), s.paths);
    RunAppend(s, first, rest);
    AllClosed(Run(s, first + rest));
    UnluckyFirst(s.paths);
    hide Consistent, Run, FirstClosing, CloseEach;
    assert [Unlucky(s.paths)][1..] == [];
    assert Flat([Unlucky(s.paths)]) == Unlucky(s.paths) + Flat([]) == Unlucky(s.paths);
    SuccessWithoutPath(s, [Unlucky(s.paths)]);
  }

  lemma AllClosed(s: San)
    requires Consistent(s) && forall i :: i in s.openPaths ==> i >= s.paths
    ensures s.openPaths == [] && s.active.None?
  {
    NoMembers(s.openPaths);
  }

  lemma NoMembers(cs: seq<nat>)
    ensures cs == [] || cs[0] in cs
  {
  }

  lemma UnluckyFirst(paths: nat)
    requires paths >= 2
    ensures SurplusFirst(paths, None, Unlucky(paths))
  {
    var events := Unlucky(paths);
    hide CloseEach;
    assert events[0] == Step(0, true) && events[1..][0] == Step(1, true);
    assert FirstClosing(paths, Some(0), events[1..]) == Some(0);
  }

  ghost predicate SuccessMeansActive(s: San, schedule: seq<seq<Event>>) {
    var w := Wait(s, schedule);
    w.Some? && WaitResult(w.value) == 0 ==> w.value.active.Some?
  }

  /** What to check before the call: success means an active path, whatever happens, exactly on devices with
      fewer than two paths. */
  lemma SuccessIsSafe(s: San)
    requires Consistent(s) && s.closedPaths == [] && s.active.None?
    ensures (forall schedule :: SuccessMeansActive(s, schedule)) <==> s.paths < 2
  {
    hide Consistent, Run, FirstClosing, Wait;
    if s.paths < 2 {
      forall schedule
        ensures SuccessMeansActive(s, schedule)
      {
        if Wait(s, schedule).Some? {
          SuccessWithoutPath(s, schedule);
          FewPaths(s.paths, None, Flat(schedule));
        }
      }
    } else {
      SuccessWithoutPathExample(s);
      assert !SuccessMeansActive(s, [Unlucky(s.paths)]);
    }
  }

  /** Every closed path has failed. */
  ghost predicate AllFailed(s: San) {
    forall i :: i in s.closedPaths ==> i in s.status && s.status[i] != 0
  }

  lemma OneEvent(s: San, e: Event)
    requires Consistent(s) && s.active.None? && AllFailed(s)
    ensures Deliver(s, e).active.None? ==> AllFailed(Deliver(s, e))
  {
    hide Distinct, Without;
  }

  lemma ShortRun(s: San, batch: seq<Event>)
    requires |batch| <= 1
    ensures Run(s, batch) == if batch == [] then s else Deliver(s, batch[0])
  {
    if batch != [] {
      assert Run(Deliver(s, batch[0]), batch[1..]) == Deliver(s, batch[0]);
    }
  }

  /** When each step brings at most one event, success always means an active path. */
  lemma {:induction false} SuccessIsActive(s: San, schedule: seq<seq<Event>>)
    requires Consistent(s) && s.active.None? && AllFailed(s)
    requires forall k :: 0 <= k < |schedule| ==> |schedule[k]| <= 1
    ensures Wait(s, schedule).Some? ==> (WaitResult(Wait(s, schedule).value) == 0 <==> Wait(s, schedule).value.active.Some?)
    decreases |schedule|
  {
    hide Deliver, Run, Consistent;
    if schedule != [] {
      var t := Run(s, schedule[0]);
      ShortRun(s, schedule[0]);
      RunKeeps(s, schedule[0]);
      if schedule[0] != [] {
        OneEvent(s, schedule[0][0]);
      }
      if t.openPaths != [] && t.active.None? {
        SuccessIsActive(t, schedule[1..]);
      } else if t.openPaths == [] {
        EmptyIsInactive(t);
      } else {
        ActiveEnds(t, schedule[1..]);
      }
    }
  }

  lemma ActiveEnds(s: San, schedule: seq<seq<Event>>)
    requires s.active.Some?
    ensures Wait(s, schedule) == Some(s)
  {
  }

  lemma EmptyIsInactive(s: San)
    requires Consistent(s) && s.openPaths == []
    ensures s.active.None?
  {
  }
}
