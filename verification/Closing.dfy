/** What closing interfaces amounts to: the recursion of interface.c as one list of steps still to be taken, and
    what such a list leaves behind. */
module Closing {
  import opened Options
  import opened PassThrough

  /** The part of the web that closing changes. */
  datatype Links = Links(dest: map<nat, nat>, nulled: set<nat>)

  datatype Task = Nullify(i: nat) | ShutDown(i: nat) | Tell(d: nat) | Reinit(i: nat)

  function Nullifies(intfs: seq<nat>): seq<Task> {
    if intfs == [] then [] else Nullifies(intfs[..|intfs| - 1]) + [Nullify(intfs[|intfs| - 1])]
  }

  function ShutDowns(intfs: seq<nat>): seq<Task> {
    if intfs == [] then [] else ShutDowns(intfs[..|intfs| - 1]) + [ShutDown(intfs[|intfs| - 1])]
  }

  function Reinits(intfs: seq<nat>): seq<Task> {
    if intfs == [] then [] else Reinits(intfs[..|intfs| - 1]) + [Reinit(intfs[|intfs| - 1])]
  }

  function TasksOf(a: Action): seq<Task> {
    match a
    case ShutdownAll(intfs) => Nullifies(intfs) + ShutDowns(intfs)
    case RestartAll(intfs) => Nullifies(intfs) + ShutDowns(intfs) + Reinits(intfs)
  }

  function TasksOfAll(actions: seq<Action>): seq<Task> {
    if actions == [] then [] else TasksOfAll(actions[..|actions| - 1]) + TasksOf(actions[|actions| - 1])
  }

  /** What the destination d does when it is told: its handler, or a restart of itself. */
  function Reaction(original: map<nat, Descriptor>, nulled: set<nat>, d: nat): seq<Task> {
    var close := Current(original, nulled, d).close;
    if close.Some? then TasksOfAll(close.value) else [ShutDown(d), Reinit(d)]
  }

  ghost function Plugged(dest: map<nat, nat>): set<nat> {
    set i | i in dest && dest[i] != NULL
  }

  /** The steps that tell somebody. */
  ghost function Tells(tasks: seq<Task>): nat {
    if tasks == [] then 0 else (if tasks[0].Tell? && tasks[0].d != NULL then 1 else 0) + Tells(tasks[1..])
  }

  lemma {:induction false} TellsAppend(a: seq<Task>, b: seq<Task>)
    ensures Tells(a + b) == Tells(a) + Tells(b)
  {
    if a == [] {
      assert a + b == b;
    } else {
      assert (a + b)[1..] == a[1..] + b;
      TellsAppend(a[1..], b);
    }
  }

  lemma {:induction false} NoTells(intfs: seq<nat>)
    ensures Tells(Nullifies(intfs)) == Tells(ShutDowns(intfs)) == Tells(Reinits(intfs)) == 0
  {
    if intfs != [] {
      var front, last := intfs[..|intfs| - 1], intfs[|intfs| - 1];
      NoTells(front);
      TellsAppend(Nullifies(front), [Nullify(last)]);
      TellsAppend(ShutDowns(front), [ShutDown(last)]);
      TellsAppend(Reinits(front), [Reinit(last)]);
    }
  }

  lemma ActionTellsNobody(a: Action)
    ensures Tells(TasksOf(a)) == 0
  {
    NoTells(a.intfs);
    TellsAppend(Nullifies(a.intfs), ShutDowns(a.intfs));
    TellsAppend(Nullifies(a.intfs) + ShutDowns(a.intfs), Reinits(a.intfs));
  }

  lemma {:induction false} ActionsTellNobody(actions: seq<Action>)
    ensures Tells(TasksOfAll(actions)) == 0
  {
    if actions != [] {
      var front, last := actions[..|actions| - 1], actions[|actions| - 1];
      ActionsTellNobody(front);
      ActionTellsNobody(last);
      TellsAppend(TasksOfAll(front), TasksOf(last));
    }
  }

  lemma ReactionTellsNobody(original: map<nat, Descriptor>, nulled: set<nat>, d: nat, rest: seq<Task>)
    ensures Tells(Reaction(original, nulled, d) + rest) == Tells(rest)
  {
    TellsAppend(Reaction(original, nulled, d), rest);
    var close := Current(original, nulled, d).close;
    if close.Some? {
      ActionsTellNobody(close.value);
    } else {
      assert [ShutDown(d), Reinit(d)][1..] == [Reinit(d)];
    }
  }

  lemma UnplugShrinks(dest: map<nat, nat>, i: nat)
    requires i in dest && dest[i] != NULL
    ensures |Plugged(dest[i := NULL])| < |Plugged(dest)|
  {
    assert Plugged(dest[i := NULL]) == Plugged(dest) - {i};
    assert i in Plugged(dest);
  }

  /** Take the steps one after the other; a step may put further steps in front of the rest. */
  ghost function Exec(original: map<nat, Descriptor>, s: Links, tasks: seq<Task>): Links
    decreases |Plugged(s.dest)|, Tells(tasks), |tasks|
  {
    if tasks == [] then s else
    var rest := tasks[1..];
    match tasks[0]
    case Nullify(i) => Exec(original, s.(nulled := s.nulled + {i}), rest)
    case Reinit(i) => Exec(original, s.(nulled := s.nulled - {i}), rest)
    case ShutDown(i) =>
      if i in s.dest && s.dest[i] != NULL then
        UnplugShrinks(s.dest, i);
        Exec(original, Links(s.dest[i := NULL], s.nulled + {i}), [Tell(s.dest[i])] + rest)
      else
        Exec(original, s.(nulled := s.nulled + {i}), rest)
    case Tell(first) =>
      if first == NULL then Exec(original, s, rest) else
      var d := Target(s.dest, original, s.nulled, first);
      ReactionTellsNobody(original, s.nulled, d, rest);
      Exec(original, s, Reaction(original, s.nulled, d) + rest)
  }

  /** Steps may be taken in two portions. */
  lemma {:induction false} ExecAppend(original: map<nat, Descriptor>, s: Links, a: seq<Task>, b: seq<Task>)
    ensures Exec(original, s, a + b) == Exec(original, Exec(original, s, a), b)
    decreases |Plugged(s.dest)|, Tells(a), |a|
  {
    hide Target, Reaction;
    if a == [] {
      assert a + b == b;
    } else {
      var rest := a[1..];
      assert (a + b)[1..] == rest + b;
      match a[0] {
        case Nullify(i) => ExecAppend(original, s.(nulled := s.nulled + {i}), rest, b);
        case Reinit(i) => ExecAppend(original, s.(nulled := s.nulled - {i}), rest, b);
        case ShutDown(i) =>
          if i in s.dest && s.dest[i] != NULL {
            UnplugShrinks(s.dest, i);
            assert [Tell(s.dest[i])] + (rest + b) == ([Tell(s.dest[i])] + rest) + b;
            ExecAppend(original, Links(s.dest[i := NULL], s.nulled + {i}), [Tell(s.dest[i])] + rest, b);
          } else {
            ExecAppend(original, s.(nulled := s.nulled + {i}), rest, b);
          }
        case Tell(first) =>
          if first == NULL {
            ExecAppend(original, s, rest, b);
          } else {
            var d := Target(s.dest, original, s.nulled, first);
            var more := Reaction(original, s.nulled, d);
            ReactionTellsNobody(original, s.nulled, d, rest);
            assert more + (rest + b) == (more + rest) + b;
            ExecAppend(original, s, more + rest, b);
          }
      }
    }
  }

  //////////////////////////////////////////////////////////////////////////////
  // What has been done
  //////////////////////////////////////////////////////////////////////////////

  /** The first k of the interfaces are unplugged. */
  ghost predicate AllUnplugged(dest: map<nat, nat>, intfs: seq<nat>, k: nat) {
    forall j :: 0 <= j < k && j < |intfs| ==> intfs[j] in dest && dest[intfs[j]] == NULL
  }

  /** The interfaces of the first k actions are unplugged. */
  ghost predicate ActionsDone(dest: map<nat, nat>, actions: seq<Action>, k: nat) {
    forall j :: 0 <= j < k && j < |actions| ==> AllUnplugged(dest, actions[j].intfs, |actions[j].intfs|)
  }

  /** The close operation has had its effect: everything the handler was to close is unplugged or, without a
      handler, the interface itself. */
  ghost predicate Informed(dest: map<nat, nat>, original: map<nat, Descriptor>, nulled: set<nat>, d: nat) {
    var close := Current(original, nulled, d).close;
    if close.Some? then ActionsDone(dest, close.value, |close.value|) else d in dest && dest[d] == NULL
  }

  lemma {:induction false} ExecUnplugs(original: map<nat, Descriptor>, s: Links, tasks: seq<Task>)
    ensures OnlyUnplugged(s.dest, Exec(original, s, tasks).dest)
    decreases |Plugged(s.dest)|, Tells(tasks), |tasks|
  {
    hide Target, Reaction;
    if tasks != [] {
      var rest := tasks[1..];
      match tasks[0] {
        case Nullify(i) => ExecUnplugs(original, s.(nulled := s.nulled + {i}), rest);
        case Reinit(i) => ExecUnplugs(original, s.(nulled := s.nulled - {i}), rest);
        case ShutDown(i) =>
          if i in s.dest && s.dest[i] != NULL {
            UnplugShrinks(s.dest, i);
            ExecUnplugs(original, Links(s.dest[i := NULL], s.nulled + {i}), [Tell(s.dest[i])] + rest);
          } else {
            ExecUnplugs(original, s.(nulled := s.nulled + {i}), rest);
          }
        case Tell(first) =>
          if first == NULL {
            ExecUnplugs(original, s, rest);
          } else {
            var d := Target(s.dest, original, s.nulled, first);
            ReactionTellsNobody(original, s.nulled, d, rest);
            ExecUnplugs(original, s, Reaction(original, s.nulled, d) + rest);
          }
      }
    }
  }

  /** A step that is on the list is taken. */
  lemma {:induction false} ExecShutsDown(original: map<nat, Descriptor>, s: Links, tasks: seq<Task>, j: nat)
    requires ShutDown(j) in tasks && j in s.dest
    ensures var now := Exec(original, s, tasks).dest; j in now && now[j] == NULL
    decreases |Plugged(s.dest)|, Tells(tasks), |tasks|
  {
    hide Target, Reaction;
    var rest := tasks[1..];
    assert tasks == [tasks[0]] + rest;
    match tasks[0] {
      case Nullify(i) => ExecShutsDown(original, s.(nulled := s.nulled + {i}), rest, j);
      case Reinit(i) => ExecShutsDown(original, s.(nulled := s.nulled - {i}), rest, j);
      case ShutDown(i) =>
        if i == j {
          var s', tasks' := Links(s.dest[i := NULL], s.nulled + {i}), [Tell(s.dest[i])] + rest;
          ExecUnplugs(original, s', tasks');
          ExecUnplugs(original, s.(nulled := s.nulled + {i}), rest);
        } else if i in s.dest && s.dest[i] != NULL {
          UnplugShrinks(s.dest, i);
          ExecShutsDown(original, Links(s.dest[i := NULL], s.nulled + {i}), [Tell(s.dest[i])] + rest, j);
        } else {
          ExecShutsDown(original, s.(nulled := s.nulled + {i}), rest, j);
        }
      case Tell(first) =>
        if first == NULL {
          ExecShutsDown(original, s, rest, j);
        } else {
          var d := Target(s.dest, original, s.nulled, first);
          ReactionTellsNobody(original, s.nulled, d, rest);
          ExecShutsDown(original, s, Reaction(original, s.nulled, d) + rest, j);
        }
    }
  }

  lemma {:induction false} ShutDownsHold(intfs: seq<nat>, j: nat)
    requires j in intfs
    ensures ShutDown(j) in ShutDowns(intfs)
  {
    if j != intfs[|intfs| - 1] {
      ShutDownsHold(intfs[..|intfs| - 1], j);
    }
  }

  lemma {:induction false} TasksHold(actions: seq<Action>, k: nat, j: nat)
    requires k < |actions| && j in actions[k].intfs
    ensures ShutDown(j) in TasksOfAll(actions)
  {
    if k == |actions| - 1 {
      ShutDownsHold(actions[k].intfs, j);
    } else {
      TasksHold(actions[..|actions| - 1], k, j);
    }
  }

  /** Handlers close interfaces that exist. */
  ghost predicate Closed(original: map<nat, Descriptor>, keys: set<nat>) {
    forall d :: d in original && original[d].close.Some? ==> ActionsExist(original[d].close.value, keys)
  }

  ghost predicate ActionsExist(actions: seq<Action>, keys: set<nat>) {
    forall k, j :: 0 <= k < |actions| && j in actions[k].intfs ==> j in keys
  }

  lemma ReactionInforms(original: map<nat, Descriptor>, s: Links, d: nat, rest: seq<Task>)
    requires Closed(original, s.dest.Keys) && d in s.dest
    ensures Informed(Exec(original, s, Reaction(original, s.nulled, d) + rest).dest, original, s.nulled, d)
  {
    hide Exec;
    var more := Reaction(original, s.nulled, d) + rest;
    var now := Exec(original, s, more).dest;
    var close := Current(original, s.nulled, d).close;
    if close.Some? {
      forall k, m | 0 <= k < |close.value| && 0 <= m < |close.value[k].intfs|
        ensures close.value[k].intfs[m] in now && now[close.value[k].intfs[m]] == NULL
      {
        TasksHold(close.value, k, close.value[k].intfs[m]);
        ExecShutsDown(original, s, more, close.value[k].intfs[m]);
      }
    } else {
      assert ShutDown(d) in more;
      ExecShutsDown(original, s, more, d);
    }
  }

  /** Whatever an interface is told takes effect before the list is done. */
  lemma TellInforms(original: map<nat, Descriptor>, s: Links, first: nat, rest: seq<Task>)
    requires first != NULL && Closed(original, s.dest.Keys)
    ensures var d := Target(s.dest, original, s.nulled, first);
      d in s.dest ==> Informed(Exec(original, s, [Tell(first)] + rest).dest, original, s.nulled, d)
  {
    hide Target, Reaction, Informed, Closed;
    assert ([Tell(first)] + rest)[1..] == rest;
    var d := Target(s.dest, original, s.nulled, first);
    if d in s.dest {
      ReactionInforms(original, s, d, rest);
    }
  }

  //////////////////////////////////////////////////////////////////////////////
  // Nobody is left plugged into what does not know
  //////////////////////////////////////////////////////////////////////////////

  /** Every interface that the list nullifies it also shuts down later. */
  ghost predicate Paired(tasks: seq<Task>) {
    tasks != [] ==> (tasks[0].Nullify? ==> ShutDown(tasks[0].i) in tasks[1..]) && Paired(tasks[1..])
  }

  /** Every interface nullified since is unplugged, or will be. */
  ghost predicate Pending(s: Links, tasks: seq<Task>, ignoring: set<nat>) {
    forall d :: d in s.nulled && d !in ignoring && d in s.dest ==> s.dest[d] == NULL || ShutDown(d) in tasks
  }

  lemma {:induction false} PairedAppend(a: seq<Task>, b: seq<Task>)
    requires Paired(a) && Paired(b)
    ensures Paired(a + b)
  {
    if a == [] {
      assert a + b == b;
    } else {
      assert (a + b)[1..] == a[1..] + b;
      PairedAppend(a[1..], b);
    }
  }

  lemma {:induction false} PairedPlain(tasks: seq<Task>)
    requires forall t :: t in tasks ==> !t.Nullify?
    ensures Paired(tasks)
  {
    if tasks != [] {
      PairedPlain(tasks[1..]);
    }
  }

  lemma {:induction false} Plain(intfs: seq<nat>)
    ensures forall t :: t in ShutDowns(intfs) || t in Reinits(intfs) ==> !t.Nullify?
    ensures forall t :: t in Nullifies(intfs) ==> t.Nullify? && t.i in intfs
  {
    if intfs != [] {
      Plain(intfs[..|intfs| - 1]);
    }
  }

  lemma {:induction false} PairedFront(a: seq<Task>, b: seq<Task>)
    requires Paired(b) && forall t :: t in a ==> t.Nullify? && ShutDown(t.i) in b
    ensures Paired(a + b)
  {
    if a == [] {
      assert a + b == b;
    } else {
      assert (a + b)[1..] == a[1..] + b;
      PairedFront(a[1..], b);
    }
  }

  lemma PairedAction(a: Action)
    ensures Paired(TasksOf(a))
  {
    Plain(a.intfs);
    forall j | j in a.intfs
      ensures ShutDown(j) in ShutDowns(a.intfs)
    {
      ShutDownsHold(a.intfs, j);
    }
    PairedPlain(ShutDowns(a.intfs));
    PairedPlain(Reinits(a.intfs));
    PairedFront(Nullifies(a.intfs), ShutDowns(a.intfs));
    PairedAppend(Nullifies(a.intfs) + ShutDowns(a.intfs), Reinits(a.intfs));
  }

  lemma {:induction false} PairedActions(actions: seq<Action>)
    ensures Paired(TasksOfAll(actions))
  {
    if actions != [] {
      var front, last := actions[..|actions| - 1], actions[|actions| - 1];
      PairedActions(front);
      PairedAction(last);
      PairedAppend(TasksOfAll(front), TasksOf(last));
    }
  }

  lemma PairedReaction(original: map<nat, Descriptor>, nulled: set<nat>, d: nat, rest: seq<Task>)
    requires Paired(rest)
    ensures Paired(Reaction(original, nulled, d) + rest)
  {
    var close := Current(original, nulled, d).close;
    if close.Some? {
      PairedActions(close.value);
    } else {
      PairedPlain([ShutDown(d), Reinit(d)]);
    }
    PairedAppend(Reaction(original, nulled, d), rest);
  }

  /** Destination d has been dealt with: it was to be ignored, it is unplugged itself, its handler has had its
      effect, or it passes operations on through an interface that is unplugged or to one dealt with. */
  ghost predicate Settled(was: map<nat, nat>, now: map<nat, nat>, original: map<nat, Descriptor>, ignoring: set<nat>,
                          d: nat, n: nat)
    decreases n
  {
    || d in ignoring || d !in original || d !in now || now[d] == NULL
    || (if original[d].close.Some? then
          ActionsDone(now, original[d].close.value, |original[d].close.value|)
        else
          && n > 0 && original[d].passthru.Some?
          && var p := original[d].passthru.value;
             p in now && p in was && (now[p] == NULL || Settled(was, now, original, ignoring, was[p], n - 1)))
  }

  /** Whoever a former plug led to has been dealt with. */
  ghost predicate Cascaded(was: map<nat, nat>, now: map<nat, nat>, original: map<nat, Descriptor>, ignoring: set<nat>) {
    forall x :: x in was && x in now && was[x] != NULL && now[x] == NULL ==>
                  SettledAt(was, now, original, ignoring, was[x])
  }

  ghost predicate SettledAt(was: map<nat, nat>, now: map<nat, nat>, original: map<nat, Descriptor>, ignoring: set<nat>, d: nat) {
    exists n: nat :: Settled(was, now, original, ignoring, d, n)
  }

  /** In particular a peer that is not nullified and neither handles nor hands on the operation is unplugged too. */
  lemma PeerUnplugged(was: map<nat, nat>, now: map<nat, nat>, original: map<nat, Descriptor>, ignoring: set<nat>, x: nat)
    requires Cascaded(was, now, original, ignoring) && x in was && x in now && was[x] != NULL && now[x] == NULL
    requires was[x] !in ignoring && was[x] in original && original[was[x]] == Descriptor(None, None)
    ensures was[x] in now ==> now[was[x]] == NULL
  {
    assert SettledAt(was, now, original, ignoring, was[x]);
    var n: nat :| Settled(was, now, original, ignoring, was[x], n);
  }

  lemma {:induction false} SettledEarlier(was: map<nat, nat>, mid: map<nat, nat>, now: map<nat, nat>,
                                          original: map<nat, Descriptor>, ignoring: set<nat>, d: nat, n: nat)
    requires OnlyUnplugged(was, mid) && OnlyUnplugged(mid, now)
    requires Settled(mid, now, original, ignoring, d, n)
    ensures Settled(was, now, original, ignoring, d, n)
    decreases n
  {
    hide ActionsDone;
    if !(d in ignoring || d !in original || d !in now || now[d] == NULL) && original[d].close.None? {
      var p := original[d].passthru.value;
      if now[p] != NULL {
        SettledEarlier(was, mid, now, original, ignoring, mid[p], n - 1);
      }
    }
  }

  lemma CascadedEarlier(was: map<nat, nat>, mid: map<nat, nat>, now: map<nat, nat>,
                        original: map<nat, Descriptor>, ignoring: set<nat>, i: nat)
    requires i in was && mid == was[i := NULL] && OnlyUnplugged(mid, now)
    requires Cascaded(mid, now, original, ignoring)
    requires was[i] != NULL ==> SettledAt(mid, now, original, ignoring, was[i])
    ensures Cascaded(was, now, original, ignoring)
  {
    hide Settled;
    forall x | x in was && x in now && was[x] != NULL && now[x] == NULL
      ensures SettledAt(was, now, original, ignoring, was[x])
    {
      assert SettledAt(mid, now, original, ignoring, was[x]);
      var n: nat :| Settled(mid, now, original, ignoring, was[x], n);
      SettledEarlier(was, mid, now, original, ignoring, was[x], n);
    }
  }

  /** Nothing interesting is said of the null interface, and what is passed on to exists. */
  ghost predicate Sound(original: map<nat, Descriptor>, dest: map<nat, nat>) {
    && NULL in original && original[NULL] == NULL_DESC && Plumbed(dest, original) && dest.Keys == original.Keys
    && ChainsEnd(dest, original) && Closed(original, dest.Keys)
  }

  lemma PlumbedLater(original: map<nat, Descriptor>, dest: map<nat, nat>, i: nat)
    requires Plumbed(dest, original) && i in dest && NULL in original
    ensures Plumbed(dest[i := NULL], original) && OnlyUnplugged(dest, dest[i := NULL])
  {
  }

  lemma PlumbedAfter(original: map<nat, Descriptor>, dest: map<nat, nat>, dest': map<nat, nat>)
    requires Plumbed(dest, original) && OnlyUnplugged(dest, dest') && NULL in original
    ensures Plumbed(dest', original) && dest'.Keys == dest.Keys
  {
  }

  lemma SoundLater(original: map<nat, Descriptor>, dest: map<nat, nat>, i: nat)
    requires Sound(original, dest) && i in dest
    ensures Sound(original, dest[i := NULL])
  {
    hide Closed, ChainsEnd, Plumbed, OnlyUnplugged;
    assert dest[i := NULL].Keys == dest.Keys;
    PlumbedLater(original, dest, i);
    EndsShrinks(dest, dest[i := NULL], original);
  }

  /** Following the search from d, the list deals with everything on the way. */
  lemma {:induction false} SearchSettles(original: map<nat, Descriptor>, s: Links, rest: seq<Task>, ignoring: set<nat>,
                                         d: nat, n: nat)
    requires Sound(original, s.dest) && Ends(s.dest, original, s.nulled, d, n) && d in original
    requires Pending(s, rest, ignoring)
    ensures Settled(s.dest, Exec(original, s, Reaction(original, s.nulled, EndOf(s.dest, original, s.nulled, d, n)) + rest).dest,
                    original, ignoring, d, n)
    decreases n
  {
    hide Exec, Closed, Reaction, ActionsDone, ChainsEnd, Settled, Pending, OnlyUnplugged;
    var tasks := Reaction(original, s.nulled, EndOf(s.dest, original, s.nulled, d, n)) + rest;
    var now := Exec(original, s, tasks).dest;
    ExecUnplugs(original, s, tasks);
    if d in ignoring {
      SettledSoon(s.dest, now, original, ignoring, d, n);
    } else if d in s.nulled {
      NulledSettles(original, s, tasks, rest, ignoring, d);
      SettledSoon(s.dest, now, original, ignoring, d, n);
    } else if Stops(original, s.nulled, d) {
      StopSettles(original, s, rest, ignoring, d, n);
    } else {
      var p := Through(original, s.nulled, d);
      if s.dest[p] != NULL {
        SearchSettles(original, s, rest, ignoring, s.dest[p], n - 1);
      }
      SettledOn(s.dest, now, original, ignoring, d, n);
    }
  }

  lemma SettledSoon(was: map<nat, nat>, now: map<nat, nat>, original: map<nat, Descriptor>, ignoring: set<nat>, d: nat, n: nat)
    requires d in ignoring || d !in now || now[d] == NULL
    ensures Settled(was, now, original, ignoring, d, n)
  {
  }

  lemma SettledOn(was: map<nat, nat>, now: map<nat, nat>, original: map<nat, Descriptor>, ignoring: set<nat>, d: nat, n: nat)
    requires d in original && original[d].close.None? && original[d].passthru.Some? && n > 0 && OnlyUnplugged(was, now)
    requires var p := original[d].passthru.value;
      p in was && (was[p] == NULL || Settled(was, now, original, ignoring, was[p], n - 1))
    ensures Settled(was, now, original, ignoring, d, n)
  {
  }

  lemma NulledSettles(original: map<nat, Descriptor>, s: Links, tasks: seq<Task>, rest: seq<Task>, ignoring: set<nat>, d: nat)
    requires Pending(s, rest, ignoring) && d in s.nulled && d !in ignoring && (forall t :: t in rest ==> t in tasks)
    ensures var now := Exec(original, s, tasks).dest; d !in now || now[d] == NULL
  {
    hide Exec;
    ExecUnplugs(original, s, tasks);
    if d in s.dest && s.dest[d] != NULL {
      ExecShutsDown(original, s, tasks, d);
    }
  }

  lemma StopSettles(original: map<nat, Descriptor>, s: Links, rest: seq<Task>, ignoring: set<nat>, d: nat, n: nat)
    requires Sound(original, s.dest) && d in original && d !in s.nulled && Stops(original, s.nulled, d)
    ensures Settled(s.dest, Exec(original, s, Reaction(original, s.nulled, d) + rest).dest, original, ignoring, d, n)
  {
    hide Exec;
    ReactionInforms(original, s, d, rest);
  }

  /** One search and what follows. */
  lemma TellSettles(original: map<nat, Descriptor>, s: Links, first: nat, rest: seq<Task>, ignoring: set<nat>)
    requires Sound(original, s.dest) && first in original && first != NULL && Pending(s, rest, ignoring)
    ensures SettledAt(s.dest, Exec(original, s, [Tell(first)] + rest).dest, original, ignoring, first)
  {
    hide Settled, ChainsEnd, Closed, Reaction, Pending;
    EndsAnywhere(s.dest, original, first);
    var n: nat :| Ends(s.dest, original, {}, first, n);
    EndsSooner(s.dest, s.dest, original, s.nulled, first, n);
    TargetIs(s.dest, original, s.nulled, first, n);
    SearchSettles(original, s, rest, ignoring, first, n);
    assert ([Tell(first)] + rest)[1..] == rest;
  }

  ghost predicate TellsExist(tasks: seq<Task>, original: map<nat, Descriptor>) {
    forall t :: t in tasks && t.Tell? ==> t.d in original
  }

  lemma PendingShutDown(s: Links, i: nat, rest: seq<Task>, more: seq<Task>, ignoring: set<nat>)
    requires Pending(s, [ShutDown(i)] + rest, ignoring) && (forall t :: t in rest ==> t in more)
    ensures Pending(Links(if i in s.dest then s.dest[i := NULL] else s.dest, s.nulled + {i}), more, ignoring)
  {
  }

  lemma ExecFirst(original: map<nat, Descriptor>, s: Links, tasks: seq<Task>)
    requires tasks != []
    ensures tasks[0].Nullify? ==>
              Exec(original, s, tasks) == Exec(original, s.(nulled := s.nulled + {tasks[0].i}), tasks[1..])
    ensures tasks[0].Reinit? ==>
              Exec(original, s, tasks) == Exec(original, s.(nulled := s.nulled - {tasks[0].i}), tasks[1..])
    ensures tasks[0].ShutDown? ==>
              var i := tasks[0].i;
              Exec(original, s, tasks)
              == if i in s.dest && s.dest[i] != NULL then
                   Exec(original, Links(s.dest[i := NULL], s.nulled + {i}), [Tell(s.dest[i])] + tasks[1..])
                 else
                   Exec(original, s.(nulled := s.nulled + {i}), tasks[1..])
    ensures tasks[0].Tell? && tasks[0].d == NULL ==> Exec(original, s, tasks) == Exec(original, s, tasks[1..])
    ensures tasks[0].Tell? && tasks[0].d != NULL ==>
              var d := Target(s.dest, original, s.nulled, tasks[0].d);
              Exec(original, s, tasks) == Exec(original, s, Reaction(original, s.nulled, d) + tasks[1..])
  {
    hide Target, Reaction;
  }

  lemma TellsFirst(tasks: seq<Task>)
    requires tasks != []
    ensures Tells(tasks) == (if tasks[0].Tell? && tasks[0].d != NULL then 1 else 0) + Tells(tasks[1..])
  {
  }

  /** What is left after the first step. */
  lemma PendingRest(s: Links, tasks: seq<Task>, ignoring: set<nat>)
    requires tasks != [] && Paired(tasks) && Pending(s, tasks, ignoring)
    ensures Paired(tasks[1..])
    ensures tasks[0].Nullify? ==> Pending(s.(nulled := s.nulled + {tasks[0].i}), tasks[1..], ignoring)
    ensures tasks[0].Reinit? ==> Pending(s.(nulled := s.nulled - {tasks[0].i}), tasks[1..], ignoring)
    ensures tasks[0].Tell? ==> Pending(s, tasks[1..], ignoring)
  {
    assert tasks == [tasks[0]] + tasks[1..];
  }

  lemma PendingMore(s: Links, a: seq<Task>, b: seq<Task>, ignoring: set<nat>)
    requires Pending(s, b, ignoring)
    ensures Pending(s, a + b, ignoring)
  {
  }

  lemma TellsExistRest(tasks: seq<Task>, original: map<nat, Descriptor>)
    requires tasks != [] && TellsExist(tasks, original)
    ensures TellsExist(tasks[1..], original) && (tasks[0].Tell? ==> tasks[0].d in original)
  {
  }

  lemma TellsExistBoth(a: seq<Task>, b: seq<Task>, original: map<nat, Descriptor>)
    requires TellsExist(a, original) && TellsExist(b, original)
    ensures TellsExist(a + b, original)
  {
  }

  lemma NothingCascades(original: map<nat, Descriptor>, s: Links, ignoring: set<nat>)
    ensures Cascaded(s.dest, Exec(original, s, []).dest, original, ignoring)
  {
    hide SettledAt;
  }

  /** Whatever list of steps is taken, and whatever recursion it stands for: everything that an unplugged interface
      led to has been dealt with, except what was nullified from the start. */
  lemma {:induction false} Cascade(original: map<nat, Descriptor>, s: Links, tasks: seq<Task>, ignoring: set<nat>)
    requires Sound(original, s.dest) && Paired(tasks) && TellsExist(tasks, original) && Pending(s, tasks, ignoring)
    ensures Cascaded(s.dest, Exec(original, s, tasks).dest, original, ignoring)
    decreases |Plugged(s.dest)|, Tells(tasks), |tasks|
  {
    hide Sound, Cascaded, Target, Reaction, Paired, Pending, TellsExist, Plugged, Exec, Tells;
    if tasks == [] {
      NothingCascades(original, s, ignoring);
      return;
    }
    ExecFirst(original, s, tasks);
    TellsFirst(tasks);
    var rest := tasks[1..];
    PendingRest(s, tasks, ignoring);
    TellsExistRest(tasks, original);
    assert tasks == [tasks[0]] + rest;
    match tasks[0] {
      case Nullify(i) => Cascade(original, s.(nulled := s.nulled + {i}), rest, ignoring);
      case Reinit(i) => Cascade(original, s.(nulled := s.nulled - {i}), rest, ignoring);
      case ShutDown(i) => CascadeShutDown(original, s, i, rest, ignoring);
      case Tell(first) =>
        if first == NULL {
          Cascade(original, s, rest, ignoring);
        } else {
          CascadeTell(original, s, first, rest, ignoring);
        }
    }
  }

  lemma {:induction false} CascadeTell(original: map<nat, Descriptor>, s: Links, first: nat, rest: seq<Task>, ignoring: set<nat>)
    requires Sound(original, s.dest) && Paired(rest) && TellsExist(rest, original) && Pending(s, rest, ignoring)
    requires first != NULL
    ensures Cascaded(s.dest, Exec(original, s, [Tell(first)] + rest).dest, original, ignoring)
    decreases |Plugged(s.dest)|, Tells(rest) + 1, |rest| + 1, 0
  {
    hide Sound, Cascaded, Target, Reaction, Paired, Pending, TellsExist, Plugged, Exec, Tells;
    var tasks := [Tell(first)] + rest;
    assert tasks[1..] == rest;
    ExecFirst(original, s, tasks);
    var d := Target(s.dest, original, s.nulled, first);
    var more := Reaction(original, s.nulled, d);
    ReactionTellsNobody(original, s.nulled, d, rest);
    PairedReaction(original, s.nulled, d, rest);
    ReactionTells(original, s.nulled, d);
    TellsExistBoth(more, rest, original);
    PendingMore(s, more, rest, ignoring);
    Cascade(original, s, more + rest, ignoring);
  }

  lemma {:induction false} CascadeShutDown(original: map<nat, Descriptor>, s: Links, i: nat, rest: seq<Task>, ignoring: set<nat>)
    requires Sound(original, s.dest) && Paired(rest) && TellsExist(rest, original)
    requires Pending(s, [ShutDown(i)] + rest, ignoring)
    ensures Cascaded(s.dest, Exec(original, s, [ShutDown(i)] + rest).dest, original, ignoring)
    decreases |Plugged(s.dest)|, Tells(rest), |rest| + 1, 0
  {
    hide Cascaded, Sound, Paired, Pending, TellsExist, Plugged, OnlyUnplugged, SettledAt;
    assert ([ShutDown(i)] + rest)[1..] == rest;
    PendingShutDown(s, i, rest, rest, ignoring);
    if i in s.dest && s.dest[i] != NULL {
      var s', more := Links(s.dest[i := NULL], s.nulled + {i}), [Tell(s.dest[i])] + rest;
      UnplugShrinks(s.dest, i);
      PendingMore(s', [Tell(s.dest[i])], rest, ignoring);
      SoundLater(original, s.dest, i);
      PairedTell(original, s.dest, i, rest);
      Cascade(original, s', more, ignoring);
      TellSettles(original, s', s.dest[i], rest, ignoring);
      ExecUnplugs(original, s', more);
      CascadedEarlier(s.dest, s'.dest, Exec(original, s', more).dest, original, ignoring, i);
    } else {
      assert i in s.dest ==> s.dest[i := NULL] == s.dest;
      Cascade(original, s.(nulled := s.nulled + {i}), rest, ignoring);
    }
  }

  lemma PairedTell(original: map<nat, Descriptor>, dest: map<nat, nat>, i: nat, rest: seq<Task>)
    requires Sound(original, dest) && i in dest && Paired(rest) && TellsExist(rest, original)
    ensures Paired([Tell(dest[i])] + rest) && TellsExist([Tell(dest[i])] + rest, original) && dest[i] in original
  {
    hide Closed, ChainsEnd, Paired, TellsExist;
    assert dest[i] in original by { PlumbedAt(original, dest, i); }
    hide Plumbed;
    TellFirst(dest[i], rest, original);
  }

  lemma TellFirst(d: nat, rest: seq<Task>, original: map<nat, Descriptor>)
    requires Paired(rest) && TellsExist(rest, original) && d in original
    ensures Paired([Tell(d)] + rest) && TellsExist([Tell(d)] + rest, original)
  {
    assert ([Tell(d)] + rest)[1..] == rest;
  }

  lemma {:induction false} TellFree(intfs: seq<nat>)
    ensures forall t :: t in Nullifies(intfs) || t in ShutDowns(intfs) || t in Reinits(intfs) ==> !t.Tell?
  {
    if intfs != [] {
      TellFree(intfs[..|intfs| - 1]);
    }
  }

  lemma {:induction false} TellFreeActions(actions: seq<Action>)
    ensures forall t :: t in TasksOfAll(actions) ==> !t.Tell?
  {
    if actions != [] {
      TellFreeActions(actions[..|actions| - 1]);
      TellFree(actions[|actions| - 1].intfs);
    }
  }

  lemma ReactionTells(original: map<nat, Descriptor>, nulled: set<nat>, d: nat)
    ensures TellsExist(Reaction(original, nulled, d), original)
  {
    var close := Current(original, nulled, d).close;
    if close.Some? {
      TellFreeActions(close.value);
    }
  }

  //////////////////////////////////////////////////////////////////////////////
  // Telling, case by case
  //////////////////////////////////////////////////////////////////////////////

  /** A nullified interface ignores what it is told; any other runs its handler or, without one, hands the operation
      on or restarts itself. */
  lemma TellExactly(original: map<nat, Descriptor>, s: Links, d: nat)
    requires Sound(original, s.dest) && d in original && d != NULL
    ensures d in s.nulled ==> Exec(original, s, [Tell(d)]) == s
    ensures d !in s.nulled && original[d].close.Some? ==>
              Exec(original, s, [Tell(d)]) == Exec(original, s, TasksOfAll(original[d].close.value))
    ensures d !in s.nulled && original[d] == Descriptor(None, None) ==>
              Exec(original, s, [Tell(d)]) == Exec(original, s, [ShutDown(d), Reinit(d)])
    ensures d !in s.nulled && original[d].close.None? && original[d].passthru.Some? ==>
              && original[d].passthru.value in s.dest
              && Exec(original, s, [Tell(d)]) == Exec(original, s, [Tell(s.dest[original[d].passthru.value])])
  {
    hide ChainsEnd, Closed, Exec;
    if d in s.nulled {
      NullifiedIgnores(original, s, d);
      return;
    }
    EndsAnywhere(s.dest, original, d);
    var n: nat :| Ends(s.dest, original, {}, d, n);
    EndsSooner(s.dest, s.dest, original, s.nulled, d, n);
    TargetIs(s.dest, original, s.nulled, d, n);
    TellOnce(original, s, d);
    if !Stops(original, s.nulled, d) {
      var e := s.dest[Through(original, s.nulled, d)];
      TargetIs(s.dest, original, s.nulled, e, n - 1);
      TellOnce(original, s, e);
      TellNull(original, s);
    }
  }

  lemma NullifiedIgnores(original: map<nat, Descriptor>, s: Links, d: nat)
    requires d in s.nulled && d != NULL
    ensures Exec(original, s, [Tell(d)]) == s
  {
    assert Current(original, s.nulled, d).close == Some([]);
    assert Ends(s.dest, original, s.nulled, d, 0);
    TargetIs(s.dest, original, s.nulled, d, 0);
    TellOnce(original, s, d);
  }

  lemma TellOnce(original: map<nat, Descriptor>, s: Links, d: nat)
    ensures var t := Target(s.dest, original, s.nulled, d);
      d != NULL ==> Exec(original, s, [Tell(d)]) == Exec(original, s, Reaction(original, s.nulled, t))
    ensures Exec(original, s, []) == s
  {
    hide Target, Reaction;
    ExecFirst(original, s, [Tell(d)]);
    var t := Target(s.dest, original, s.nulled, d);
    assert [Tell(d)][1..] == [];
    assert Reaction(original, s.nulled, t) + [] == Reaction(original, s.nulled, t);
  }

  lemma TellNull(original: map<nat, Descriptor>, s: Links)
    requires NULL in original && original[NULL] == NULL_DESC
    ensures Exec(original, s, [Tell(NULL)]) == s == Exec(original, s, Reaction(original, s.nulled, NULL))
    ensures Stops(original, s.nulled, NULL)
  {
  }

  //////////////////////////////////////////////////////////////////////////////
  // Lists of interfaces, one at a time
  //////////////////////////////////////////////////////////////////////////////

  lemma OneMoreNullify(original: map<nat, Descriptor>, s: Links, intfs: seq<nat>, k: nat)
    requires k < |intfs|
    ensures var t := Exec(original, s, Nullifies(intfs[..k]));
      Exec(original, s, Nullifies(intfs[..k + 1])) == t.(nulled := t.nulled + {intfs[k]})
  {
    assert intfs[..k + 1][..k] == intfs[..k];
    ExecAppend(original, s, Nullifies(intfs[..k]), [Nullify(intfs[k])]);
  }

  lemma OneMoreReinit(original: map<nat, Descriptor>, s: Links, intfs: seq<nat>, k: nat)
    requires k < |intfs|
    ensures var t := Exec(original, s, Reinits(intfs[..k]));
      Exec(original, s, Reinits(intfs[..k + 1])) == t.(nulled := t.nulled - {intfs[k]})
  {
    assert intfs[..k + 1][..k] == intfs[..k];
    ExecAppend(original, s, Reinits(intfs[..k]), [Reinit(intfs[k])]);
  }

  lemma OneMoreShutDown(original: map<nat, Descriptor>, s: Links, intfs: seq<nat>, k: nat)
    requires k < |intfs|
    ensures Exec(original, s, ShutDowns(intfs[..k + 1]))
         == Exec(original, Exec(original, s, ShutDowns(intfs[..k])), [ShutDown(intfs[k])])
  {
    hide Exec;
    assert intfs[..k + 1][..k] == intfs[..k];
    ExecAppend(original, s, ShutDowns(intfs[..k]), [ShutDown(intfs[k])]);
  }

  lemma OneMoreAction(original: map<nat, Descriptor>, s: Links, actions: seq<Action>, k: nat)
    requires k < |actions|
    ensures Exec(original, s, TasksOfAll(actions[..k + 1]))
         == Exec(original, Exec(original, s, TasksOfAll(actions[..k])), TasksOf(actions[k]))
  {
    hide Exec;
    assert actions[..k + 1][..k] == actions[..k];
    ExecAppend(original, s, TasksOfAll(actions[..k]), TasksOf(actions[k]));
  }

  /** All interfaces of a list nullified. */
  ghost function Nullified(s: Links, intfs: seq<nat>): Links {
    s.(nulled := s.nulled + set j | j in intfs)
  }

  lemma {:induction false} NullifiesAll(original: map<nat, Descriptor>, s: Links, intfs: seq<nat>)
    ensures Exec(original, s, Nullifies(intfs)) == Nullified(s, intfs)
  {
    if intfs == [] {
      assert Nullified(s, intfs) == s;
    } else {
      var k := |intfs| - 1;
      NullifiesAll(original, s, intfs[..k]);
      assert intfs[..k + 1] == intfs;
      OneMoreNullify(original, s, intfs, k);
      hide Exec, Nullifies;
      assert (set j | j in intfs) == (set j | j in intfs[..k]) + {intfs[k]};
    }
  }

  /** The interfaces in the list have been shut down in turn, and the handler that each plug led to when its turn
      came has had its effect. */
  ghost predicate EachInformed(original: map<nat, Descriptor>, s: Links, intfs: seq<nat>, now: map<nat, nat>) {
    forall k :: 0 <= k < |intfs| ==> TurnInformed(original, Exec(original, s, ShutDowns(intfs[..k])), intfs[k], now)
  }

  ghost predicate TurnInformed(original: map<nat, Descriptor>, t: Links, i: nat, now: map<nat, nat>) {
    && i in t.dest
    && Informed(now, original, t.nulled + {i}, Target(t.dest[i := NULL], original, t.nulled + {i}, t.dest[i]))
  }

  lemma PlumbedAt(original: map<nat, Descriptor>, dest: map<nat, nat>, i: nat)
    requires Plumbed(dest, original) && i in dest
    ensures dest[i] in original
  {
  }

  lemma ShutDownInforms(original: map<nat, Descriptor>, s: Links, i: nat, rest: seq<Task>)
    requires Sound(original, s.dest) && i in s.dest
    ensures TurnInformed(original, s, i, Exec(original, s, [ShutDown(i)] + rest).dest)
  {
    hide Closed, Informed, ChainsEnd, Exec, Target, Plumbed;
    var s' := Links(s.dest[i := NULL], s.nulled + {i});
    assert ([ShutDown(i)] + rest)[1..] == rest;
    ExecFirst(original, s, [ShutDown(i)] + rest);
    SoundLater(original, s.dest, i);
    assert s.dest[i] in original by { PlumbedAt(original, s.dest, i); }
    TargetExists(original, s', s.dest[i]);
    if s.dest[i] != NULL {
      TellInforms(original, s', s.dest[i], rest);
    } else {
      NullInformed(original, s', Exec(original, s, [ShutDown(i)] + rest).dest);
    }
  }

  lemma TargetExists(original: map<nat, Descriptor>, s: Links, d: nat)
    requires Sound(original, s.dest) && d in original
    ensures Target(s.dest, original, s.nulled, d) in original
  {
    hide ChainsEnd, Closed;
    EndsAnywhere(s.dest, original, d);
    var n: nat :| Ends(s.dest, original, {}, d, n);
    EndsSooner(s.dest, s.dest, original, s.nulled, d, n);
    TargetIs(s.dest, original, s.nulled, d, n);
    EndExists(original, s, d, n);
  }

  lemma {:induction false} EndExists(original: map<nat, Descriptor>, s: Links, d: nat, n: nat)
    requires Sound(original, s.dest) && d in original && Ends(s.dest, original, s.nulled, d, n)
    ensures EndOf(s.dest, original, s.nulled, d, n) in original
    decreases n
  {
    hide ChainsEnd, Closed;
    if !Stops(original, s.nulled, d) {
      EndExists(original, s, s.dest[Through(original, s.nulled, d)], n - 1);
    }
  }

  lemma NullInformed(original: map<nat, Descriptor>, s: Links, now: map<nat, nat>)
    requires NULL in original && original[NULL] == NULL_DESC
    ensures Informed(now, original, s.nulled, Target(s.dest, original, s.nulled, NULL))
  {
    assert Ends(s.dest, original, s.nulled, NULL, 0);
    TargetIs(s.dest, original, s.nulled, NULL, 0);
  }

  lemma {:induction false} EachIsInformed(original: map<nat, Descriptor>, s: Links, intfs: seq<nat>)
    requires Sound(original, s.dest) && (forall j :: j in intfs ==> j in s.dest)
    ensures EachInformed(original, s, intfs, Exec(original, s, ShutDowns(intfs)).dest)
  {
    hide Sound, TurnInformed, Exec;
    var now := Exec(original, s, ShutDowns(intfs)).dest;
    forall k | 0 <= k < |intfs|
      ensures TurnInformed(original, Exec(original, s, ShutDowns(intfs[..k])), intfs[k], now)
    {
      var t := Exec(original, s, ShutDowns(intfs[..k]));
      SoundAfter(original, s, ShutDowns(intfs[..k]));
      ShutDownsSplit(intfs, k);
      ExecAppend(original, s, ShutDowns(intfs[..k]), [ShutDown(intfs[k])] + ShutDowns(intfs[k + 1..]));
      ShutDownInforms(original, t, intfs[k], ShutDowns(intfs[k + 1..]));
    }
  }

  lemma SoundAfter(original: map<nat, Descriptor>, s: Links, tasks: seq<Task>)
    requires Sound(original, s.dest)
    ensures Sound(original, Exec(original, s, tasks).dest) && Exec(original, s, tasks).dest.Keys == s.dest.Keys
  {
    hide Exec, ChainsEnd, Closed, Plumbed, OnlyUnplugged;
    ExecUnplugs(original, s, tasks);
    PlumbedAfter(original, s.dest, Exec(original, s, tasks).dest);
    EndsShrinks(s.dest, Exec(original, s, tasks).dest, original);
  }

  lemma {:induction false} ShutDownsSplit(intfs: seq<nat>, k: nat)
    requires k < |intfs|
    ensures ShutDowns(intfs) == ShutDowns(intfs[..k]) + ([ShutDown(intfs[k])] + ShutDowns(intfs[k + 1..]))
  {
    var front, last := intfs[..|intfs| - 1], intfs[|intfs| - 1];
    if k == |intfs| - 1 {
      assert intfs[k + 1..] == [];
    } else {
      ShutDownsSplit(front, k);
      assert front[..k] == intfs[..k];
      assert intfs[k + 1..][..|intfs| - k - 2] == front[k + 1..];
      assert intfs[k + 1..][|intfs| - k - 2] == last;
    }
  }

  lemma NoSteps(original: map<nat, Descriptor>, s: Links)
    ensures Exec(original, s, []) == s
  {
  }

  lemma ShutDownOnce(original: map<nat, Descriptor>, s: Links, i: nat)
    requires i in s.dest
    ensures Exec(original, s, [ShutDown(i)])
         == Exec(original, Links(s.dest[i := NULL], s.nulled + {i}), [Tell(s.dest[i])])
  {
    ExecFirst(original, s, [ShutDown(i)]);
    assert [ShutDown(i)][1..] == [] && [Tell(s.dest[i])][1..] == [] && [Tell(s.dest[i])] + [] == [Tell(s.dest[i])];
    if s.dest[i] == NULL {
      assert s.dest[i := NULL] == s.dest;
    }
  }

  lemma RestartSteps(original: map<nat, Descriptor>, s: Links, i: nat)
    ensures var t := Exec(original, s, [ShutDown(i)]);
      Exec(original, s, [ShutDown(i), Reinit(i)]) == t.(nulled := t.nulled - {i})
  {
    assert [ShutDown(i), Reinit(i)] == [ShutDown(i)] + [Reinit(i)];
    ExecAppend(original, s, [ShutDown(i)], [Reinit(i)]);
  }

  lemma CascadeOne(original: map<nat, Descriptor>, s: Links, i: nat)
    requires Sound(original, s.dest)
    ensures Cascaded(s.dest, Exec(original, s, [ShutDown(i)]).dest, original, s.nulled)
  {
    hide Sound, Exec, Cascaded;
    PairedPlain([ShutDown(i)]);
    Cascade(original, s, [ShutDown(i)], s.nulled);
  }

  lemma CascadeAction(original: map<nat, Descriptor>, s: Links, a: Action)
    requires Sound(original, s.dest)
    ensures Cascaded(s.dest, Exec(original, s, TasksOf(a)).dest, original, s.nulled)
  {
    hide Sound, Exec, Cascaded;
    PairedAction(a);
    TellFree(a.intfs);
    Cascade(original, s, TasksOf(a), s.nulled);
  }
}
