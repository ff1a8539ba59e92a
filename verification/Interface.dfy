/** interface.c and refcnt.c: a web of objects whose interfaces are plugged into one another, with one
    reference for every plug. */
module Interface {
  import opened Options
  import opened PassThrough
  import opened Closing

  //////////////////////////////////////////////////////////////////////////////
  // Counting plugs
  //////////////////////////////////////////////////////////////////////////////

  /** The interfaces plugged into an object. */
  ghost function PlugsInto(dest: map<nat, nat>, objects: map<nat, Option<nat>>, o: nat): set<nat> {
    set i | i in dest && dest[i] in objects && objects[dest[i]] == Some(o)
  }

  ghost function Plugs(dest: map<nat, nat>, objects: map<nat, Option<nat>>, o: nat): nat {
    |PlugsInto(dest, objects, o)|
  }

  /** One if the interface belongs to the object. */
  ghost function One(objects: map<nat, Option<nat>>, d: nat, o: nat): nat {
    if d in objects && objects[d] == Some(o) then 1 else 0
  }

  lemma Replug(dest: map<nat, nat>, objects: map<nat, Option<nat>>, i: nat, d: nat, o: nat)
    requires i in dest
    ensures Plugs(dest[i := d], objects, o) + One(objects, dest[i], o) == Plugs(dest, objects, o) + One(objects, d, o)
  {
    var was, now := PlugsInto(dest, objects, o), PlugsInto(dest[i := d], objects, o);
    var others := was - {i};
    assert was == if One(objects, dest[i], o) == 1 then others + {i} else others;
    assert now == if One(objects, d, o) == 1 then others + {i} else others;
  }

  lemma PlugCounts(dest: map<nat, nat>, objects: map<nat, Option<nat>>, i: nat, o: nat)
    requires i in dest && One(objects, dest[i], o) == 1
    ensures Plugs(dest, objects, o) >= 1
  {
    assert i in PlugsInto(dest, objects, o);
    assert PlugsInto(dest, objects, o) == PlugsInto(dest, objects, o) - {i} + {i};
  }

  lemma FewerPlugged(dest: map<nat, nat>, dest': map<nat, nat>)
    requires OnlyUnplugged(dest, dest')
    ensures |Plugged(dest')| <= |Plugged(dest)|
  {
    SubsetSize(Plugged(dest'), Plugged(dest));
  }

  lemma {:induction false} SubsetSize(a: set<nat>, b: set<nat>)
    requires a <= b
    ensures |a| <= |b|
  {
    assert b == a + (b - a);
  }

  //////////////////////////////////////////////////////////////////////////////
  // The reference invariant
  //////////////////////////////////////////////////////////////////////////////

  /** Every count is one less than the plugs into the object and the references held elsewhere, and an
      object has been freed, once, exactly when there are none of either. */
  ghost predicate Counted(objects: map<nat, Option<nat>>, dest: map<nat, nat>, count: map<nat, int>,
                          freed: map<nat, nat>, held: map<nat, nat>) {
    && count.Keys == freed.Keys == held.Keys
    && forall o :: o in count ==>
         && count[o] + 1 == Plugs(dest, objects, o) + held[o]
         && freed[o] == if count[o] < 0 then 1 else 0
  }

  ghost function Hold(held: map<nat, nat>, obj: Option<nat>): map<nat, nat> {
    if obj.Some? && obj.value in held then held[obj.value := held[obj.value] + 1] else held
  }

  ghost predicate Holds(held: map<nat, nat>, obj: Option<nat>) {
    obj.Some? ==> obj.value in held && held[obj.value] > 0
  }

  ghost function Release(held: map<nat, nat>, obj: Option<nat>): map<nat, nat>
    requires Holds(held, obj)
  {
    if obj.Some? then held[obj.value := held[obj.value] - 1] else held
  }

  lemma ReleaseHold(held: map<nat, nat>, obj: Option<nat>)
    requires obj.Some? ==> obj.value in held
    ensures Holds(Hold(held, obj), obj) && Release(Hold(held, obj), obj) == held
  {
  }

  lemma ReleaseHeld(held: map<nat, nat>, obj: Option<nat>)
    requires Holds(Hold(held, obj), obj)
    ensures Release(Hold(held, obj), obj) == held
  {
  }

  /** Freed objects have no plugs and no holders; an object with either is not freed. */
  lemma FreedIsFinal(objects: map<nat, Option<nat>>, dest: map<nat, nat>, count: map<nat, int>,
                     freed: map<nat, nat>, held: map<nat, nat>, o: nat)
    requires Counted(objects, dest, count, freed, held) && o in count
    ensures freed[o] == 1 <==> Plugs(dest, objects, o) == 0 && held[o] == 0
    ensures freed[o] <= 1
  {
  }

  ghost predicate AliveObject(count: map<nat, int>, obj: Option<nat>) {
    obj.Some? ==> obj.value in count && count[obj.value] >= 0
  }

  function Incremented(count: map<nat, int>, obj: Option<nat>): map<nat, int> {
    if obj.Some? && obj.value in count then count[obj.value := count[obj.value] + 1] else count
  }

  function Decremented(count: map<nat, int>, obj: Option<nat>): map<nat, int> {
    if obj.Some? && obj.value in count then count[obj.value := count[obj.value] - 1] else count
  }

  /** The object is freed when its count goes from zero to minus one. */
  function FreedBy(count: map<nat, int>, freed: map<nat, nat>, obj: Option<nat>): map<nat, nat> {
    if obj.Some? && obj.value in count && obj.value in freed && count[obj.value] == 0 then
      freed[obj.value := freed[obj.value] + 1]
    else
      freed
  }

  lemma GetKeeps(objects: map<nat, Option<nat>>, dest: map<nat, nat>, count: map<nat, int>,
                 freed: map<nat, nat>, held: map<nat, nat>, obj: Option<nat>)
    requires Counted(objects, dest, count, freed, held) && AliveObject(count, obj)
    ensures Counted(objects, dest, Incremented(count, obj), freed, Hold(held, obj))
    ensures Holds(Hold(held, obj), obj)
    ensures Incremented(count, obj).Keys == count.Keys
  {
    hide Plugs;
  }

  lemma PutKeeps(objects: map<nat, Option<nat>>, dest: map<nat, nat>, count: map<nat, int>,
                 freed: map<nat, nat>, held: map<nat, nat>, obj: Option<nat>)
    requires Counted(objects, dest, count, freed, held) && Holds(held, obj)
    ensures Counted(objects, dest, Decremented(count, obj), FreedBy(count, freed, obj), Release(held, obj))
    ensures Decremented(count, obj).Keys == count.Keys
  {
    hide Plugs;
  }

  lemma HoldsAlive(objects: map<nat, Option<nat>>, dest: map<nat, nat>, count: map<nat, int>,
                   freed: map<nat, nat>, held: map<nat, nat>, obj: Option<nat>)
    requires Counted(objects, dest, count, freed, held) && Holds(held, obj)
    ensures AliveObject(count, obj)
  {
    hide Plugs;
  }

  lemma PlugAlive(objects: map<nat, Option<nat>>, dest: map<nat, nat>, count: map<nat, int>,
                  freed: map<nat, nat>, held: map<nat, nat>, i: nat)
    requires Counted(objects, dest, count, freed, held)
    requires i in dest && dest[i] in objects && (objects[dest[i]].Some? ==> objects[dest[i]].value in count)
    ensures AliveObject(count, objects[dest[i]])
  {
    hide Plugs;
    if objects[dest[i]].Some? {
      PlugCounts(dest, objects, i, objects[dest[i]].value);
    }
  }

  /** Giving up a plug leaves its reference with whoever took the destination. */
  lemma MoveReference(objects: map<nat, Option<nat>>, dest: map<nat, nat>, count: map<nat, int>,
                      freed: map<nat, nat>, held: map<nat, nat>, i: nat)
    requires Counted(objects, dest, count, freed, held)
    requires i in dest && dest[i] in objects && NULL in objects && objects[NULL] == None
    requires objects[dest[i]].Some? ==> objects[dest[i]].value in count
    ensures Counted(objects, dest[i := NULL], count, freed, Hold(held, objects[dest[i]]))
    ensures Holds(Hold(held, objects[dest[i]]), objects[dest[i]])
  {
    hide Plugs;
    var held' := Hold(held, objects[dest[i]]);
    forall o | o in count
      ensures count[o] + 1 == Plugs(dest[i := NULL], objects, o) + held'[o]
    {
      Replug(dest, objects, i, NULL, o);
    }
  }

  /** Replacing one plug by another moves one reference. */
  lemma MovePlug(objects: map<nat, Option<nat>>, dest: map<nat, nat>, count: map<nat, int>,
                 freed: map<nat, nat>, held: map<nat, nat>, i: nat, d: nat)
    requires Counted(objects, dest, count, freed, held)
    requires i in dest && dest[i] in objects && d in objects && AliveObject(count, objects[d])
    requires objects[dest[i]].Some? ==> objects[dest[i]].value in count
    ensures var more := Incremented(count, objects[d]);
      && Counted(objects, dest[i := d], Decremented(more, objects[dest[i]]), FreedBy(more, freed, objects[dest[i]]), held)
      && Decremented(more, objects[dest[i]]).Keys == count.Keys
  {
    hide Plugs;
    var more := Incremented(count, objects[d]);
    var count', freed' := Decremented(more, objects[dest[i]]), FreedBy(more, freed, objects[dest[i]]);
    if objects[dest[i]].Some? {
      PlugCounts(dest, objects, i, objects[dest[i]].value);
    }
    forall o | o in count
      ensures count'[o] + 1 == Plugs(dest[i := d], objects, o) + held[o]
      ensures freed'[o] == if count'[o] < 0 then 1 else 0
    {
      Replug(dest, objects, i, d, o);
    }
  }

  //////////////////////////////////////////////////////////////////////////////
  // Interfaces
  //////////////////////////////////////////////////////////////////////////////

  /** The handlers of an interface concern only the object it belongs to. */
  ghost predicate OwnInterfaces(objects: map<nat, Option<nat>>, i: nat, actions: seq<Action>) {
    forall a :: a in actions ==> OwnInterfacesOf(objects, i, a.intfs)
  }

  ghost predicate OwnInterfacesOf(objects: map<nat, Option<nat>>, i: nat, intfs: seq<nat>) {
    i in objects && forall j :: j in intfs ==> j in objects && j != NULL && objects[j] == objects[i]
  }

  /** What never changes: the objects, their interfaces and the original descriptors. */
  ghost predicate Static(objects: map<nat, Option<nat>>, original: map<nat, Descriptor>) {
    && NULL in objects && objects[NULL] == None
    && original.Keys == objects.Keys && original[NULL] == NULL_DESC
    && (forall i :: i in original && original[i].passthru.Some? ==> original[i].passthru.value in objects)
    && (forall i :: i in original && original[i].close.Some? ==> OwnInterfaces(objects, i, original[i].close.value))
  }

  /** Every interface has a destination, every counted object a counter. */
  ghost predicate Wired(objects: map<nat, Option<nat>>, dest: map<nat, nat>, counters: set<nat>) {
    && dest.Keys == objects.Keys && NULL in objects && dest[NULL] == NULL && objects[NULL] == None
    && (forall i :: i in dest ==> dest[i] in objects)
    && (forall i :: i in objects && objects[i].Some? ==> objects[i].value in counters)
  }

  lemma WiredUpdate(objects: map<nat, Option<nat>>, dest: map<nat, nat>, counters: set<nat>, i: nat, d: nat)
    requires Wired(objects, dest, counters) && i in dest && d in objects && (i == NULL ==> d == NULL)
    ensures Wired(objects, dest[i := d], counters)
  {
  }

  lemma WiredAt(objects: map<nat, Option<nat>>, dest: map<nat, nat>, counters: set<nat>, i: nat)
    requires Wired(objects, dest, counters) && i in objects
    ensures i in dest && dest[i] in objects && NULL in objects && objects[NULL] == None
    ensures objects[i].Some? ==> objects[i].value in counters
    ensures objects[dest[i]].Some? ==> objects[dest[i]].value in counters
    ensures i == NULL ==> dest[i] == NULL
  {
  }

  /** The effect of intf_plug on the destinations. */
  class Web {
    const objects: map<nat, Option<nat>>
    const original: map<nat, Descriptor>
    var dest: map<nat, nat>
    var nulled: set<nat>
    var count: map<nat, int>
    var freed: map<nat, nat>
    ghost var held: map<nat, nat>

    /** Freshly initialised objects, nothing plugged: each is held by its creator, with count zero. */
    constructor (objects: map<nat, Option<nat>>, original: map<nat, Descriptor>, counters: set<nat>)
      requires Static(objects, original)
      requires forall i :: i in objects && objects[i].Some? ==> objects[i].value in counters
      ensures Valid() && this.objects == objects && this.original == original && nulled == {}
      ensures dest == (map i | i in objects :: NULL) && ChainsEnd(dest, original)
      ensures held == map o | o in counters :: 1
    {
      this.objects, this.original := objects, original;
      dest := map i | i in objects :: NULL;
      nulled := {};
      count := map o | o in counters :: 0;
      freed := map o | o in counters :: 0;
      held := map o | o in counters :: 1;
      new;
      forall o | o in counters
        ensures Plugs(dest, objects, o) == 0
      {
        assert PlugsInto(dest, objects, o) == {};
      }
      hide Plugs, OwnInterfaces;
      assert Ends(dest, original, {}, NULL, 0);
    }

    ghost predicate Valid()
      reads this
    {
      && Static(objects, original)
      && Wired(objects, dest, count.Keys)
      && Counted(objects, dest, count, freed, held)
    }

    /** What closing changes. */
    ghost function Links(): Links
      reads this
    {
      Closing.Links.Links(dest, nulled)
    }

    /** The object that contains the interface has not been freed. */
    ghost predicate Alive(i: nat)
      reads this
    {
      i in objects && AliveObject(count, objects[i])
    }

    /** Somebody other than a plug holds a reference to the object that contains the interface. */
    ghost predicate Held(i: nat)
      reads this
    {
      i in objects && Holds(held, objects[i])
    }

    lemma HeldIsAlive(i: nat)
      requires Valid() && Held(i)
      ensures Alive(i)
    {
      hide Counted, Wired, Static;
      HoldsAlive(objects, dest, count, freed, held, objects[i]);
    }

    /** Nothing is plugged into a freed object. */
    lemma PluggedIsAlive(i: nat)
      requires Valid() && i in objects
      ensures i in dest && Alive(dest[i])
    {
      hide Counted, Wired, Static, AliveObject;
      WiredAt(objects, dest, count.Keys, i);
      PlugAlive(objects, dest, count, freed, held, i);
    }

    /** ref_increment. */
    method RefIncrement(obj: Option<nat>)
      requires obj.Some? ==> obj.value in count
      modifies `count
      ensures count == Incremented(old(count), obj)
    {
      if obj.Some? {
        count := count[obj.value := count[obj.value] + 1];
      }
    }

    /** ref_decrement: frees when the count reaches -1, and never again below that. */
    method RefDecrement(obj: Option<nat>)
      requires obj.Some? ==> obj.value in count && obj.value in freed
      modifies `count, `freed
      ensures count == Decremented(old(count), obj)
      ensures freed == FreedBy(old(count), old(freed), obj)
    {
      if obj.None? {
        return;
      }
      var o := obj.value;
      count := count[o := count[o] - 1];
      if count[o] >= 0 {
        return;
      }
      if count[o] < -1 {
        return;
      }
      freed := freed[o := freed[o] + 1];
    }

    /** intf_get. */
    method Get(i: nat)
      requires Valid() && Alive(i)
      modifies `count, `held
      ensures Valid() && held == Hold(old(held), objects[i]) && Held(i)
    {
      hide Counted, Wired, Static, Hold, Incremented, Holds;
      GetKeeps(objects, dest, count, freed, held, objects[i]);
      RefIncrement(objects[i]);
      held := Hold(held, objects[i]);
    }

    /** intf_put. */
    method Put(i: nat)
      requires Valid() && Held(i)
      modifies `count, `freed, `held
      ensures Valid() && held == Release(old(held), objects[i])
    {
      hide Counted, Wired, Static, Decremented, FreedBy, Release;
      PutKeeps(objects, dest, count, freed, held, objects[i]);
      CountedKeys(objects, dest, count, freed, held);
      RefDecrement(objects[i]);
      held := Release(held, objects[i]);
    }

    /** intf_plug. */
    method Plug(i: nat, d: nat)
      requires Valid() && Alive(d) && i in objects
      modifies `dest, `count, `freed
      ensures Valid() && dest == Replugged(old(dest), i, d)
      ensures i in old(dest) && old(dest)[i] in objects
      ensures count == if i == NULL then old(count) else Decremented(Incremented(old(count), objects[d]), objects[old(dest)[i]])
      ensures ChainsEnd(old(dest), original) && i != NULL ==>
                (ChainsEnd(dest, original) <==> NeverCrosses(old(dest), original, d, i))
    {
      hide Counted, Wired, Static, Decremented, FreedBy, ChainsEnd, NeverCrosses;
      WiredAt(objects, dest, count.Keys, i);
      if i == NULL {
        return;
      }
      if ChainsEnd(dest, original) {
        PlumbedWeb();
        PlugExactly(dest, original, i, d);
      }
      WiredUpdate(objects, dest, count.Keys, i, d);
      MovePlug(objects, dest, count, freed, held, i, d);
      CountedKeys(objects, dest, count, freed, held);
      RefIncrement(objects[d]);
      RefDecrement(objects[dest[i]]);
      dest := dest[i := d];
    }

    /** What is plugged and passed on to exists. */
    lemma PlumbedWeb()
      requires Valid()
      ensures Plumbed(dest, original) && NULL in original && original[NULL] == NULL_DESC && NULL in dest && dest[NULL] == NULL
    {
      hide Counted, OwnInterfaces;
    }

    /** intf_unplug. */
    method Unplug(i: nat)
      requires Valid() && i in objects
      modifies `dest, `count, `freed
      ensures Valid() && dest == old(dest)[i := NULL]
      ensures ChainsEnd(old(dest), original) ==> ChainsEnd(dest, original)
    {
      hide Counted, Wired, Static, Decremented, FreedBy, ChainsEnd, OnlyUnplugged;
      WiredAt(objects, dest, count.Keys, i);
      if ChainsEnd(dest, original) {
        PlumbedWeb();
        UnpluggingOne(dest, i);
        EndsShrinks(dest, dest[i := NULL], original);
      }
      WiredUpdate(objects, dest, count.Keys, i, NULL);
      MovePlug(objects, dest, count, freed, held, i, NULL);
      CountedKeys(objects, dest, count, freed, held);
      RefDecrement(objects[dest[i]]);
      dest := dest[i := NULL];
    }

    /** Dropping what the interface is plugged into cannot free the object that contains it. */
    ghost predicate Outlives(i: nat)
      reads this
    {
      Alive(i) && i in dest && dest[i] in objects && (objects[i].Some? && objects[dest[i]] == objects[i] ==> Held(i))
    }

    /** intf_plug_plug. */
    method PlugPlug(a: nat, b: nat)
      requires Valid() && Outlives(a) && Alive(b)
      modifies `dest, `count, `freed
      ensures Valid() && dest == Replugged(Replugged(old(dest), a, b), b, a)
      ensures a != NULL && b != NULL && ChainsEnd(old(dest), original) && NeverCrosses(old(dest), original, b, a) ==>
                (ChainsEnd(dest, original) <==> NeverCrosses(old(dest)[a := b], original, a, b))
    {
      hide Counted, Wired, Static, ChainsEnd, NeverCrosses;
      if !Held(a) {
        OtherAlive(count, objects[b], objects[dest[a]], objects[a]);
      }
      Plug(a, b);
      if Held(a) {
        HeldIsAlive(a);
      }
      Plug(b, a);
    }

    /** intf_insert: the filter ends up between the interface and its former destination. */
    method Insert(i: nat, upper: nat, lower: nat)
      requires Valid() && Held(i) && Held(upper) && Held(lower)
      modifies `dest, `count, `freed, `held
      ensures Valid() && held == old(held)
      ensures i in old(dest)
      ensures var d := old(dest)[i];
        && dest == Inserted(old(dest), i, d, upper, lower)
        && (ChainsEnd(old(dest), original) && NewFilter(old(dest), original, i, d, upper, lower) ==> ChainsEnd(dest, original))
    {
      hide Counted, Wired, Static, Holds, Hold, Release, AliveObject, Replugged, ChainsEnd, NeverCrosses, NewFilter, Plumbed;
      PluggedIsAlive(i);
      var d := dest[i];
      WiredAt(objects, dest, count.Keys, i);
      if ChainsEnd(dest, original) && NewFilter(dest, original, i, d, upper, lower) {
        PlumbedWeb();
        InsertKeeps(dest, original, i, d, upper, lower);
      }
      CountedKeys(objects, dest, count, freed, held);
      HoldKeepsHeld(held, objects[d], objects[i]);
      HoldKeepsHeld(held, objects[d], objects[upper]);
      HoldKeepsHeld(held, objects[d], objects[lower]);
      Get(d);
      HeldIsOutlives(i);
      HeldIsAlive(upper);
      PlugPlug(i, upper);
      HeldIsOutlives(lower);
      HeldIsAlive(d);
      PlugPlug(lower, d);
      Put(d);
    }

    //////////////////////////////////////////////////////////////////////////////
    // Closing
    //////////////////////////////////////////////////////////////////////////////

    /** intf_get_dest_op for the close operation: follow pass-through interfaces until one has a handler of
        its own or none is left. The destination is returned with a reference. */
    method GetCloseOp(first: nat) returns (d: nat, op: Option<seq<Action>>)
      requires Valid() && Alive(first) && ChainEnds(dest, original, nulled, first)
      modifies `count, `freed, `held
      ensures Valid() && d in original && held == Hold(old(held), objects[d]) && Held(d)
      ensures d == Target(dest, original, nulled, first) && op == Current(original, nulled, d).close
      ensures first == NULL ==> d == NULL
    {
      hide Counted, Wired, Static, Holds, Hold, Release, AliveObject, ChainsEnd;
      d := first;
      ghost var b: nat :| Ends(dest, original, nulled, first, b);
      TargetIs(dest, original, nulled, first, b);
      StaticAt(objects, original, first);
      while true
        invariant Valid() && d in original && Alive(d) && Ends(dest, original, nulled, d, b) && held == old(held)
        invariant d == first || first != NULL
        invariant EndOf(dest, original, nulled, d, b) == Target(dest, original, nulled, first)
        decreases b
      {
        StaticAt(objects, original, d);
        RegisteredAt(objects, dest, count, freed, held, d);
        ReleaseHold(held, objects[d]);
        Get(d);
        op := Current(original, nulled, d).close;
        if op.Some? || Current(original, nulled, d).passthru.None? {
          return;
        }
        var p := Current(original, nulled, d).passthru.value;
        Put(d);
        PluggedIsAlive(p);
        b := b - 1;
        StaticAt(objects, original, dest[p]);
        d := dest[p];
      }
    }

    /** intf_close, for an interface whose destination is `first`. */
    method Close(first: nat)
      requires Valid() && ChainsEnd(dest, original) && Alive(first) && ChainEnds(dest, original, nulled, first)
      modifies this
      ensures Valid() && held == old(held) && OnlyUnplugged(old(dest), dest) && ChainsEnd(dest, original)
      ensures Informed(dest, original, old(nulled), Target(old(dest), original, old(nulled), first))
      ensures Links() == Exec(original, old(Links()), [Tell(first)])
      decreases |Plugged(dest)|, if first == NULL then 0 else 5, 1
    {
      hide Counted, Wired, Static, Holds, Hold, Release, AliveObject, ChainsEnd, Plugged, OnlyUnplugged, OwnInterfaces,
           Target, ActionsDone, Exec, TasksOfAll;
      StaticAt(objects, original, first);
      ghost var before := Links();
      var d, op := GetCloseOp(first);
      StaticAt(objects, original, d);
      ReleaseHeld(old(held), objects[d]);
      TellOnce(original, before, first);
      if first == NULL {
        TellNull(original, before);
      }
      if op.Some? {
        NothingToDo(objects, d);
        RunActions(op.value, d);
      } else {
        Restart(d);
      }
      Put(d);
    }

    /** The body of a close handler. */
    method RunActions(actions: seq<Action>, ghost d: nat)
      requires Valid() && ChainsEnd(dest, original) && Held(d) && OwnInterfaces(objects, d, actions)
      modifies this
      ensures Valid() && held == old(held) && OnlyUnplugged(old(dest), dest) && ChainsEnd(dest, original)
      ensures ActionsDone(dest, actions, |actions|)
      ensures Links() == Exec(original, old(Links()), TasksOfAll(actions))
      decreases |Plugged(dest)|, if actions == [] then 0 else 4, 0
    {
      hide Counted, Wired, Static, Holds, ChainsEnd, Plugged, OnlyUnplugged, OwnInterfacesOf, AllUnplugged, ActionsDone, Exec, TasksOf;
      Unplugging(dest, dest);
      NoneDone(dest, actions);
      ghost var before := Links();
      NoSteps(original, before);
      assert actions[..|actions|] == actions;
      for k := 0 to |actions|
        invariant Valid() && held == old(held) && OnlyUnplugged(old(dest), dest) && ChainsEnd(dest, original)
        invariant ActionsDone(dest, actions, k)
        invariant Links() == Exec(original, before, TasksOfAll(actions[..k]))
      {
        ghost var was := dest;
        OneMoreAction(original, before, actions, k);
        FewerPlugged(old(dest), was);
        match actions[k] {
          case ShutdownAll(intfs) => ShutdownEach(intfs, d);
          case RestartAll(intfs) => RestartEach(intfs, d);
        }
        UnpluggingOn(old(dest), was, dest);
        OneMoreDone(was, dest, actions, k);
      }
    }

    /** intfs_shutdown. */
    method ShutdownEach(intfs: seq<nat>, ghost d: nat)
      requires Valid() && ChainsEnd(dest, original) && Held(d) && OwnInterfacesOf(objects, d, intfs)
      modifies this
      ensures Valid() && held == old(held) && OnlyUnplugged(old(dest), dest) && ChainsEnd(dest, original)
      ensures AllUnplugged(dest, intfs, |intfs|)
      ensures Links() == Exec(original, old(Links()), TasksOf(ShutdownAll(intfs)))
      ensures EachInformed(original, Nullified(old(Links()), intfs), intfs, dest)
      ensures Cascaded(old(dest), dest, original, old(nulled))
      decreases |Plugged(dest)|, 2, 0
    {
      hide Counted, Wired, Static, Holds, ChainsEnd, Plugged, AliveObject, OnlyUnplugged, OwnInterfacesOf, AllUnplugged,
           Exec, EachInformed, Cascaded, Sound, Paired, Nullified;
      ghost var before := Links();
      NoSteps(original, before);
      assert intfs[..|intfs|] == intfs;
      for k := 0 to |intfs|
        invariant Valid() && dest == old(dest) && held == old(held)
        invariant Links() == Exec(original, before, Nullifies(intfs[..k]))
      {
        OwnAt(objects, d, intfs, k);
        OneMoreNullify(original, before, intfs, k);
        assert Alive(intfs[k]) by { HeldIsAlive(d); }
        nulled := nulled + {intfs[k]};
      }
      Unplugging(dest, dest);
      NoneUnplugged(dest, intfs);
      ghost var nullified := Links();
      NoSteps(original, nullified);
      SoundWeb();
      AllExist(objects, d, intfs, dest, count.Keys);
      for k := 0 to |intfs|
        invariant Valid() && held == old(held) && OnlyUnplugged(old(dest), dest) && ChainsEnd(dest, original)
        invariant AllUnplugged(dest, intfs, k)
        invariant Links() == Exec(original, nullified, ShutDowns(intfs[..k]))
      {
        OwnAt(objects, d, intfs, k);
        OneMoreShutDown(original, nullified, intfs, k);
        HeldIsAlive(d);
        FewerPlugged(old(dest), dest);
        ghost var was := dest;
        Shutdown(intfs[k]);
        UnpluggingOn(old(dest), was, dest);
        OneMoreUnplugged(was, dest, intfs, k);
      }
      NullifiesAll(original, before, intfs);
      ExecAppend(original, before, Nullifies(intfs), ShutDowns(intfs));
      EachIsInformed(original, nullified, intfs);
      CascadeAction(original, before, ShutdownAll(intfs));
    }

    /** intfs_restart. */
    method RestartEach(intfs: seq<nat>, ghost d: nat)
      requires Valid() && ChainsEnd(dest, original) && Held(d) && OwnInterfacesOf(objects, d, intfs)
      modifies this
      ensures Valid() && held == old(held) && OnlyUnplugged(old(dest), dest) && ChainsEnd(dest, original)
      ensures AllRestarted(dest, nulled, intfs)
      ensures Links() == Exec(original, old(Links()), TasksOf(RestartAll(intfs)))
      ensures EachInformed(original, Nullified(old(Links()), intfs), intfs, dest)
      ensures Cascaded(old(dest), dest, original, old(nulled))
      decreases |Plugged(dest)|, 3, 0
    {
      hide Counted, Wired, Static, Holds, ChainsEnd, Plugged, AliveObject, OnlyUnplugged, OwnInterfacesOf, AllUnplugged,
           Exec, EachInformed, Cascaded;
      ghost var before := Links();
      ShutdownEach(intfs, d);
      ReinitEach(intfs, d);
      ExecAppend(original, before, Nullifies(intfs) + ShutDowns(intfs), Reinits(intfs));
    }

    /** intf_reinit for each interface: all of them still exist. */
    method ReinitEach(intfs: seq<nat>, ghost d: nat)
      requires Valid() && Held(d) && OwnInterfacesOf(objects, d, intfs)
      modifies `nulled
      ensures Valid() && NoneNulled(nulled, intfs, |intfs|)
      ensures Links() == Exec(original, old(Links()), Reinits(intfs))
    {
      hide Counted, Wired, Static, Holds, AliveObject, OwnInterfacesOf, Exec;
      ghost var before := Links();
      NoSteps(original, before);
      assert intfs[..|intfs|] == intfs;
      for k := 0 to |intfs|
        invariant Valid()
        invariant NoneNulled(nulled, intfs, k)
        invariant Links() == Exec(original, before, Reinits(intfs[..k]))
      {
        OwnAt(objects, d, intfs, k);
        OneMoreReinit(original, before, intfs, k);
        assert Alive(intfs[k]) by { HeldIsAlive(d); }
        nulled := nulled - {intfs[k]};
      }
    }

    /** intf_shutdown: the plug is handed to a temporary interface, through which the destination is told. */
    method Shutdown(i: nat)
      requires Valid() && ChainsEnd(dest, original) && Alive(i) && i != NULL
      modifies this
      ensures Valid() && held == old(held) && OnlyUnplugged(old(dest), dest) && ChainsEnd(dest, original)
      ensures i in old(dest) && i in dest && dest[i] == NULL
      ensures ChainEnds(old(dest)[i := NULL], original, old(nulled) + {i}, old(dest)[i])
      ensures Informed(dest, original, old(nulled) + {i},
                       Target(old(dest)[i := NULL], original, old(nulled) + {i}, old(dest)[i]))
      ensures Links() == Exec(original, old(Links()), [ShutDown(i)])
      ensures Cascaded(old(dest), dest, original, old(nulled))
      decreases |Plugged(dest)|, 1, 0
    {
      hide Counted, Wired, Static, Holds, Hold, Release, AliveObject, ChainsEnd, Plugged, OnlyUnplugged, Target, Informed,
           Exec, Cascaded, Sound;
      ghost var before := Links();
      SoundWeb();
      WiredAt(objects, dest, count.Keys, i);
      StaticAt(objects, original, i);
      nulled := nulled + {i};
      var t := dest[i];
      StaticAt(objects, original, t);
      MoveReference(objects, dest, count, freed, held, i);
      WiredUpdate(objects, dest, count.Keys, i, NULL);
      UnpluggingOne(dest, i);
      EndsShrinks(dest, dest[i := NULL], original);
      EndsNow(dest, dest[i := NULL], original, nulled, i);
      RegisteredAt(objects, dest, count, freed, held, t);
      ReleaseHold(held, objects[t]);
      if t != NULL {
        UnplugShrinks(dest, i);
      } else {
        SameUnplugged(dest, i);
      }
      dest := dest[i := NULL];
      held := Hold(held, objects[t]);
      ghost var was := dest;
      HeldIsAlive(t);
      Close(t);
      StaysUnplugged(was, dest, i);
      UnpluggingOn(old(dest), was, dest);
      Put(t);
      ShutDownOnce(original, before, i);
      CascadeOne(original, before, i);
    }

    /** intf_restart. */
    method Restart(i: nat)
      requires Valid() && ChainsEnd(dest, original) && Held(i) && i != NULL
      modifies this
      ensures Valid() && held == old(held) && OnlyUnplugged(old(dest), dest) && ChainsEnd(dest, original)
      ensures i in old(dest) && i in dest && dest[i] == NULL && i !in nulled
      ensures ChainEnds(old(dest)[i := NULL], original, old(nulled) + {i}, old(dest)[i])
      ensures Informed(dest, original, old(nulled) + {i},
                       Target(old(dest)[i := NULL], original, old(nulled) + {i}, old(dest)[i]))
      ensures Links() == Exec(original, old(Links()), [ShutDown(i), Reinit(i)])
      ensures Cascaded(old(dest), dest, original, old(nulled))
      decreases |Plugged(dest)|, 2, 0
    {
      hide Counted, Wired, Static, Holds, AliveObject, ChainsEnd, Plugged, OnlyUnplugged, Target, Informed, Exec, Cascaded;
      RestartSteps(original, Links(), i);
      HeldIsAlive(i);
      Shutdown(i);
      assert Alive(i) by { HeldIsAlive(i); }
      nulled := nulled - {i};
    }

    /** The web is one in which lists of steps can be taken. */
    lemma SoundWeb()
      requires Valid() && ChainsEnd(dest, original)
      ensures Sound(original, dest)
    {
      hide Counted, OwnInterfaces, ActionsExist, ChainsEnd;
      PlumbedWeb();
      forall d | d in original && original[d].close.Some?
        ensures ActionsExist(original[d].close.value, dest.Keys)
      {
        OwnExist(objects, d, original[d].close.value);
      }
    }

    lemma HeldIsOutlives(i: nat)
      requires Valid() && Held(i)
      ensures Outlives(i)
    {
      hide Counted, Wired, Static, Holds, AliveObject;
      HeldIsAlive(i);
      PluggedIsAlive(i);
    }
  }

  //////////////////////////////////////////////////////////////////////////////
  // What closing has done
  //////////////////////////////////////////////////////////////////////////////

  lemma OwnExist(objects: map<nat, Option<nat>>, d: nat, actions: seq<Action>)
    requires OwnInterfaces(objects, d, actions)
    ensures ActionsExist(actions, objects.Keys)
  {
  }

  lemma AllExist(objects: map<nat, Option<nat>>, d: nat, intfs: seq<nat>, dest: map<nat, nat>, counters: set<nat>)
    requires OwnInterfacesOf(objects, d, intfs) && Wired(objects, dest, counters)
    ensures forall j :: j in intfs ==> j in dest
  {
  }

  lemma NoneDone(dest: map<nat, nat>, actions: seq<Action>)
    ensures ActionsDone(dest, actions, 0)
  {
  }

  lemma OneMoreDone(dest: map<nat, nat>, dest': map<nat, nat>, actions: seq<Action>, k: nat)
    requires ActionsDone(dest, actions, k) && OnlyUnplugged(dest, dest')
    requires k < |actions| && AllUnplugged(dest', actions[k].intfs, |actions[k].intfs|)
    ensures ActionsDone(dest', actions, k + 1)
  {
    forall j | 0 <= j <= k
      ensures AllUnplugged(dest', actions[j].intfs, |actions[j].intfs|)
    {
      assert j < k ==> AllUnplugged(dest, actions[j].intfs, |actions[j].intfs|);
    }
  }

  lemma Unplugging(dest: map<nat, nat>, dest': map<nat, nat>)
    requires dest == dest'
    ensures OnlyUnplugged(dest, dest')
  {
  }

  lemma UnpluggingOne(dest: map<nat, nat>, i: nat)
    requires i in dest
    ensures OnlyUnplugged(dest, dest[i := NULL])
  {
  }

  lemma UnpluggingOn(a: map<nat, nat>, b: map<nat, nat>, c: map<nat, nat>)
    requires OnlyUnplugged(a, b) && OnlyUnplugged(b, c)
    ensures OnlyUnplugged(a, c)
  {
  }

  lemma StaysUnplugged(dest: map<nat, nat>, dest': map<nat, nat>, i: nat)
    requires OnlyUnplugged(dest, dest') && i in dest && dest[i] == NULL
    ensures i in dest' && dest'[i] == NULL
  {
  }

  lemma SameUnplugged(dest: map<nat, nat>, i: nat)
    requires i in dest && dest[i] == NULL
    ensures dest[i := NULL] == dest
  {
  }

  ghost predicate NoneNulled(nulled: set<nat>, intfs: seq<nat>, k: nat) {
    forall j :: 0 <= j < k && j < |intfs| ==> intfs[j] !in nulled
  }

  ghost predicate AllRestarted(dest: map<nat, nat>, nulled: set<nat>, intfs: seq<nat>) {
    AllUnplugged(dest, intfs, |intfs|) && NoneNulled(nulled, intfs, |intfs|)
  }

  lemma NoneUnplugged(dest: map<nat, nat>, intfs: seq<nat>)
    ensures AllUnplugged(dest, intfs, 0)
  {
  }

  lemma OneMoreUnplugged(dest: map<nat, nat>, dest': map<nat, nat>, intfs: seq<nat>, k: nat)
    requires AllUnplugged(dest, intfs, k) && OnlyUnplugged(dest, dest')
    requires k < |intfs| && intfs[k] in dest' && dest'[intfs[k]] == NULL
    ensures AllUnplugged(dest', intfs, k + 1)
  {
  }

  lemma OwnAt(objects: map<nat, Option<nat>>, d: nat, intfs: seq<nat>, k: nat)
    requires OwnInterfacesOf(objects, d, intfs) && k < |intfs|
    ensures d in objects && intfs[k] in objects && intfs[k] != NULL && objects[intfs[k]] == objects[d]
  {
  }

  lemma NothingToDo(objects: map<nat, Option<nat>>, d: nat)
    ensures OwnInterfaces(objects, d, [])
  {
  }

  lemma StaticAt(objects: map<nat, Option<nat>>, original: map<nat, Descriptor>, i: nat)
    requires Static(objects, original) && i in objects
    ensures i in original && NULL in original && original[NULL] == NULL_DESC
    ensures original[i].passthru.Some? ==> original[i].passthru.value in objects
    ensures original[i].close.Some? ==> OwnInterfaces(objects, i, original[i].close.value)
  {
  }

  lemma RegisteredAt(objects: map<nat, Option<nat>>, dest: map<nat, nat>, count: map<nat, int>,
                     freed: map<nat, nat>, held: map<nat, nat>, i: nat)
    requires Wired(objects, dest, count.Keys) && Counted(objects, dest, count, freed, held) && i in objects
    ensures objects[i].Some? ==> objects[i].value in held
  {
  }

  lemma OtherAlive(count: map<nat, int>, more: Option<nat>, less: Option<nat>, obj: Option<nat>)
    requires AliveObject(count, obj) && (obj.None? || less != obj)
    ensures AliveObject(Decremented(Incremented(count, more), less), obj)
  {
  }

  lemma HoldKeepsHeld(held: map<nat, nat>, more: Option<nat>, obj: Option<nat>)
    requires Holds(held, obj)
    ensures Holds(Hold(held, more), obj)
    ensures more.Some? && more.value in held ==> Release(Hold(held, more), more) == held
    ensures more.None? ==> Release(Hold(held, more), more) == held
  {
  }

  lemma CountedKeys(objects: map<nat, Option<nat>>, dest: map<nat, nat>, count: map<nat, int>,
                    freed: map<nat, nat>, held: map<nat, nat>)
    requires Counted(objects, dest, count, freed, held)
    ensures count.Keys == freed.Keys == held.Keys
  {
  }
}
