/** settings.c: registering, storing and fetching, with blocks kept in order of priority. */
module Settings {
  import opened Options
  import opened Lists
  import opened SettingsTree
  import opened SettingsOrder
  import opened SettingsChanges
  import opened SettingsPruning

  /** Siblings behind one of lower priority have lower priority still. */
  lemma LowerBehind(b: Blocks, rank: map<nat, nat>, s: nat, rest: seq<nat>, k: nat)
    requires Tree(b, rank) && InOrder(b, rank, {s}) && s in b.parent && b.parent[s] in b.children && s in b.children && s in rank
    requires rest == Without(b.children[b.parent[s]], s) && k < |rest|
    requires rest[k] in b.children && rest[k] in rank && Effective(b, rank, s) > Effective(b, rank, rest[k])
    ensures forall y :: y in rest[k..] ==> y in b.children && y in rank && Effective(b, rank, s) >= Effective(b, rank, y)
  {
    hide Tree, Effective, Avoids, Without, Before, Ahead;
    var p, x := b.parent[s], rest[k];
    forall y | y in rest[k..]
      ensures y in b.children && y in rank && Effective(b, rank, s) >= Effective(b, rank, y)
    {
      ChildAt(b, rank, p, y);
      ChildAt(b, rank, p, x);
      if y != x {
        LaterIsBehind(rest, k, y);
        WithoutKeepsOrder(b.children[p], s, x, y);
        AheadIsBefore(b, p, x, y);
        SiblingAvoids(b, rank, s, x);
        SiblingAvoids(b, rank, s, y);
        assert PairInOrder(b, rank, {s}, x, y);
      }
    }
  }

  lemma LaterIsBehind(rest: seq<nat>, k: nat, y: nat)
    requires k < |rest| && y in rest[k..] && y != rest[k]
    ensures Before(rest, rest[k], y)
  {
    var j :| 0 <= j < |rest[k..]| && rest[k..][j] == y;
    assert rest[k + j] == y;
  }

  /** A sibling does not contain the block. */
  lemma SiblingAvoids(b: Blocks, rank: map<nat, nat>, s: nat, x: nat)
    requires Tree(b, rank) && s in b.parent && b.parent[s] in b.children && x in b.children[b.parent[s]] && x != s
    ensures x in b.children && x in rank && Avoids(b, rank, x, {s})
  {
    hide Tree, Avoids;
    var p := b.parent[s];
    ChildAt(b, rank, p, x);
    AvoidsHigher(b, rank, x, p);
    AvoidsChild(b, rank, x, s);
  }

  class Registry {
    var children: map<nat, seq<nat>>
    var parent: map<nat, nat>
    var values: map<nat, map<nat, int>>
    var order: map<nat, int>
    var names: map<nat, string>
    ghost var rank: map<nat, nat>
    ghost var top: nat

    /** Blocks that have been initialised but not yet registered. */
    constructor (blocks: set<nat>)
      ensures Valid() && Ordered()
      ensures children == map b | b in blocks :: []
      ensures parent == map[] && values == map b | b in blocks :: map[]
      ensures order == map b | b in blocks :: 0
      ensures UniqueNames(children, names)
    {
      children := map b | b in blocks :: [];
      parent := map[];
      values := map b | b in blocks :: map[];
      order := map b | b in blocks :: 0;
      names := map[];
      rank := map b | b in blocks :: 0;
      top := 0;
      new;
      hide Effective;
      assert forall p, x, y :: !Ahead(Now(), p, x, y);
    }

    ghost function Now(): Blocks
      reads this
    {
      Blocks(children, parent, values)
    }

    ghost predicate Valid()
      reads this
    {
      && Tree(Now(), rank)
      && (forall b :: b in rank ==> rank[b] <= top)
      && order.Keys == children.Keys
    }

    /** Every block's children are sorted by descending effective priority. */
    ghost predicate Ordered()
      reads this
    {
      Valid() && Sorted(Now(), rank)
    }

    /** fetch_setting: the value together with the block it came from. */
    method FetchSetting(s: nat, key: nat) returns (origin: Option<nat>)
      requires Valid() && s in children && s in rank
      ensures origin == Fetch(Now(), rank, s, key)
      ensures origin == FirstHolder(Now(), Preorder(Now(), rank, s), key)
      decreases rank[s]
    {
      BlockAt(Now(), rank, s);
      FetchIsFirst(Now(), rank, s, key);
      ListedChildren(Now(), rank, s);
      hide Tree, Preorder, FirstHolder;
      if key in values[s] {
        return Some(s);
      }
      ghost var rest := children[s];
      for i := 0 to |children[s]|
        invariant rest == children[s][i..] && Listed(Now(), rank, rest, rank[s])
        invariant FetchIn(Now(), rank, children[s], key, rank[s]) == FetchIn(Now(), rank, rest, key, rank[s])
      {
        ChildAt(Now(), rank, s, children[s][i]);
        assert rest[0] == children[s][i];
        var found := FetchSetting(children[s][i], key);
        if found.Some? {
          return found;
        }
        rest := rest[1..];
      }
      return None;
    }

    /** The priority that reprioritise_settings reads: zero when there is none. */
    method Priority(s: nat) returns (priority: int)
      requires Valid() && s in children && s in rank
      ensures priority == Effective(Now(), rank, s)
    {
      hide Tree, Preorder, FirstHolder;
      var origin := FetchSetting(s, PRIORITY);
      priority := if origin.Some? then values[origin.value][PRIORITY] else 0;
    }

    /** Blocks differ in priority only. */
    ghost predicate EqualOrder()
      reads this
    {
      forall x, y :: x in order && y in order ==> order[x] == order[y]
    }

    /** Where a block belongs among its siblings. */
    method FindPlace(s: nat, priority: int, rest: seq<nat>) returns (k: nat)
      requires Valid() && s in parent && s in children && s in rank && parent[s] in children
      requires rest == Without(children[parent[s]], s) && priority == Effective(Now(), rank, s)
      ensures s in order && k == Position(Priorities(Now(), rank, rest), Keys(order, rest), priority, order[s]) <= |rest|
      ensures EqualOrder() && InOrder(Now(), rank, {s}) ==> RightPlace(Now(), rank, s, rest, k)
    {
      hide Tree, Without, Effective, InOrder, Position;
      ghost var prio, keys := Priorities(Now(), rank, rest), Keys(order, rest);
      k := 0;
      while k < |rest|
        invariant 0 <= k <= |rest|
        invariant forall x :: x in rest[..k] ==> x in children && x in rank && Effective(Now(), rank, x) >= priority
        invariant Passed(prio, keys, priority, order[s], k)
      {
        assert rest[k] in children[parent[s]];
        ChildAt(Now(), rank, parent[s], rest[k]);
        var tmp := Priority(rest[k]);
        StopOrGo(prio, keys, priority, order[s], k);
        if priority > tmp {
          if InOrder(Now(), rank, {s}) {
            LowerBehind(Now(), rank, s, rest, k);
          }
          return;
        }
        if order[s] > order[rest[k]] {
          return;
        }
        assert rest[..k + 1] == rest[..k] + [rest[k]];
        k := k + 1;
      }
      StopAtEnd(prio, keys, priority, order[s], k);
    }

    /** reprioritise_settings: put the block in its place among its siblings, then its parent, up to the top. */
    method Reprioritise(s: nat)
      requires Valid() && s in children && s in rank
      modifies `children
      ensures Valid() && SameMembers(old(children), children)
      ensures Now() == Climbed(old(Now()), rank, order, s, top)
      ensures EqualOrder() && old(InOrder(Now(), rank, {s})) ==> Ordered()
      decreases top - rank[s]
    {
      hide Tree, Without, Effective, InOrder, Moved, RightPlace, SameMembers, Position, Priorities, Keys;
      if s !in parent {
        Unmoved(children);
        if InOrder(Now(), rank, {s}) {
          SortedAtRoot(Now(), rank, s);
        }
        return;
      }
      ParentAt(Now(), rank, s);
      var p := parent[s];
      var priority := Priority(s);
      var rest := Without(children[p], s);
      var k := FindPlace(s, priority, rest);
      ghost var b := Now();
      MovedTree(b, rank, s, k);
      MovedMembers(b, rank, s, k);
      if EqualOrder() && InOrder(b, rank, {s}) {
        MoveClimbs(b, rank, s, k);
      }
      children := children[p := InsertAt(rest, k, s)];
      assert Now() == Moved(b, s, k) by { MovedIs(b, s, k); }
      ghost var c := children;
      Reprioritise(p);
      MembersTrans(b.children, c, children);
    }

    /** generic_settings_store, with the memory for it. */
    method GenericStore(s: nat, key: nat, data: Option<int>)
      requires Valid() && s in children && s in rank && s in values
      modifies `values
      ensures Valid() && Agree(Now(), old(Now()), {s})
      ensures values.Keys == old(values).Keys && forall x :: x in values && x != s ==> values[x] == old(values)[x]
      ensures values[s].Keys == (if data.Some? then old(values)[s].Keys + {key} else old(values)[s].Keys - {key})
      ensures forall k :: k in values[s] && k != key ==> values[s][k] == old(values)[s][k]
      ensures data.Some? ==> values[s][key] == data.value
    {
      hide Tree, Agree;
      ghost var b := Now();
      var setting: map<nat, int> := values[s];
      if data.Some? {
        setting := setting[key := data.value];
      } else {
        setting := setting - {key};
      }
      values := values[s := setting];
      StoredTree(b, rank, s, setting);
    }

    /** store_setting: whether the setting applies to the block, whether the block can store, and whether
        memory suffices are decided by the block; no data clears the setting. */
    method StoreSetting(s: nat, key: nat, data: Option<int>, applies: bool, storable: bool, memory: bool)
      returns (rc: Status)
      requires Valid() && s in children && s in rank
      modifies `children, `values
      ensures Valid() && SameMembers(old(children), children)
      ensures rc == if !applies then NotApplicable else if !storable then NotSupported
                    else if data.Some? && !memory then OutOfMemory else Success
      ensures s in old(values)
      ensures rc != Success ==> values == old(values)
      ensures values.Keys == old(values).Keys && forall x :: x in values && x != s ==> values[x] == old(values)[x]
      ensures rc == Success ==>
        && values[s].Keys == (if data.Some? then old(values)[s].Keys + {key} else old(values)[s].Keys - {key})
        && forall k :: k in values[s] && k != key ==> values[s][k] == old(values)[s][k]
      ensures rc == Success && data.Some? ==>
        Fetch(Now(), rank, s, key) == Some(s) && values[s][key] == data.value
      ensures rc == Success && data.None? ==>
        Fetch(Now(), rank, s, key) == FirstHolder(Now(), Preorder(Now(), rank, s)[1..], key)
      ensures rc != Success || key != PRIORITY ==> children == old(children)
      ensures rc == Success && key == PRIORITY ==>
        && Tree(Blocks(old(children), parent, values), rank)
        && Now() == Climbed(Blocks(old(children), parent, values), rank, order, s, top)
      ensures UniqueNames(old(children), names) ==> UniqueNames(children, names)
      ensures EqualOrder() && old(Ordered()) ==> Ordered()
    {
      hide Tree, InOrder, Sorted, SameMembers, Agree, UniqueNames, Fetch, Preorder, FirstHolder, Climbed;
      BlockAt(Now(), rank, s);
      Unmoved(children);
      if !applies {
        return NotApplicable;
      }
      if !storable {
        return NotSupported;
      }
      if data.Some? && !memory {
        return OutOfMemory;
      }
      ghost var b := Now();
      GenericStore(s, key, data);
      if key == PRIORITY {
        if Sorted(b, rank) {
          StoreDisturbs(b, Now(), rank, s);
        }
        Reprioritise(s);
        if UniqueNames(b.children, names) {
          MembersUnique(b.children, children, names);
        }
      } else if Sorted(b, rank) {
        OtherSetting(b, Now(), rank, s);
      }
      FetchAfterStore(Now(), rank, s, key);
      rc := Success;
    }

    /** unregister_settings: everything below goes first, one child at a time. Nothing fixes up the order of
        what contained the block. */
    method Unregister(s: nat) returns (ghost gone: set<nat>)
      requires Valid() && s in parent
      modifies `children, `parent
      ensures Valid() && Pruned(old(Now()), Now(), rank, s, gone)
      ensures old(Ordered()) ==> (Ordered() <==> old(PlacesKept(Now(), rank, s)))
      ensures s in old(children) && s in rank && (old(Ordered() && PriorityElsewhere(Now(), rank, s)) ==> Ordered())
      ensures UniqueNames(old(children), names) ==> UniqueNames(children, names)
      decreases if s in rank then rank[s] else 0
    {
      hide Tree, PartlyPruned, Pruned, Without, Unlinked, UniqueNames, Sorted, PlacesKept, PriorityElsewhere;
      ghost var b := Now();
      ParentAt(b, rank, s);
      gone := {};
      PruneStart(b, rank, s);
      while children[s] != []
        invariant Valid() && s in children && s in parent
        invariant PartlyPruned(b, Now(), rank, s, gone)
        decreases |children[s]|
      {
        ghost var c := Now();
        var child := children[s][0];
        ChildAt(c, rank, s, child);
        ghost var g := Unregister(child);
        PruneChild(b, c, Now(), rank, s, gone, child, g);
        PruneShortens(c, Now(), rank, s, child, g);
        gone := gone + g;
      }
      PruneFinish(b, Now(), rank, s, gone);
      ghost var c := Now();
      gone := gone + {s};
      PrunedTree(b, Unlinked(c, s), rank, s, gone);
      var p := parent[s];
      parent := parent - {s};
      children := children[p := Without(children[p], s)];
      UnlinkedIs(c, s);
      if UniqueNames(b.children, names) {
        PrunedUnique(b, Now(), rank, s, gone, names);
      }
      if Sorted(b, rank) {
        SortedAfterPruning(b, Now(), rank, s, gone);
        if PriorityElsewhere(b, rank, s) {
          PruningDisturbsNothing(b, Now(), rank, s, gone);
        }
      }
    }

    /** find_child_settings: the empty name stands for the block itself. */
    method FindChild(p: nat, name: string) returns (c: Option<nat>)
      requires Valid() && p in children
      ensures name == "" ==> c == Some(p)
      ensures name != "" && c.Some? ==> c.value in children[p] && c.value in names && names[c.value] == name
      ensures name != "" && c.None? ==> forall x :: x in children[p] ==> x !in names || names[x] != name
    {
      hide Tree;
      if name == "" {
        return Some(p);
      }
      for i := 0 to |children[p]|
        invariant forall x :: x in children[p][..i] ==> x !in names || names[x] != name
      {
        var x := children[p][i];
        if x in names && names[x] == name {
          return Some(x);
        }
        assert children[p][..i + 1] == children[p][..i] + [x];
      }
      assert children[p][..|children[p]|] == children[p];
      return None;
    }

    /** register_settings: replace any child of that name, become the last child, and fix up the order all
        the way to the top. The ranks show that the block is not its own ancestor. With an empty name it is the
        parent that is taken out, which has to have a parent for that, and the block goes with it. */
    method Register(s: nat, p: nat, name: string, ghost ranks: map<nat, nat>, ghost limit: nat)
      returns (ghost c: Blocks, ghost prior: Option<nat>, ghost gone: set<nat>)
      requires Valid() && s in children && s !in parent && p in children && (name == "" ==> p in parent)
      requires Tree(Now(), ranks) && s in ranks && p in ranks && ranks[s] < ranks[p]
      requires forall b :: b in ranks ==> ranks[b] <= limit
      modifies this
      ensures Valid() && values == old(values) && order == old(order)
      ensures names == old(names)[s := name]
      ensures Removed(old(Now()), c, ranks, names, p, name, prior, gone)
      ensures parent == c.parent[s := p] && p in c.children && SameMembers(Attached(c, s, p).children, children)
      ensures Tree(Attached(c, s, p), rank) && s in rank && Now() == Climbed(Attached(c, s, p), rank, order, s, top)
      ensures old(UniqueNames(children, names)) ==> UniqueNames(children, names)
      ensures EqualOrder() && old(Ordered()) && name != "" ==> Ordered()
      ensures EqualOrder() && old(Ordered()) && PlacesKept(old(Now()), ranks, p) ==> Ordered()
    {
      hide Tree, InOrder, Sorted, SameMembers, Removed, UniqueNames, PlacesKept, Climbed, Attached;
      ghost var b := Now();
      if Sorted(Now(), rank) {
        Reranked(Now(), rank, ranks);
      }
      rank, top := ranks, limit;
      names := names[s := name];
      prior, gone := RemoveNamed(p, name, s);
      c := Now();
      Attach(s, p);
      AttachedIs(c, s, p);
      Reprioritise(s);
      if UniqueNames(b.children, old(names)) {
        RegisterUnique(b, c, ranks, old(names), s, p, name, prior, gone, children);
      }
    }

    /** Remove any child of p with the given name. */
    method RemoveNamed(p: nat, name: string, ghost s: nat) returns (ghost prior: Option<nat>, ghost gone: set<nat>)
      requires Valid() && p in children && s in children && s !in parent && (name == "" ==> p in parent)
      modifies `children, `parent
      ensures Valid() && children.Keys == old(children.Keys) && s !in parent && values == old(values)
      ensures Removed(old(Now()), Now(), rank, names, p, name, prior, gone)
      ensures old(Sorted(Now(), rank)) && name != "" ==> InOrder(Now(), rank, {p})
      ensures old(Sorted(Now(), rank) && PlacesKept(Now(), rank, p)) ==> InOrder(Now(), rank, {p})
    {
      hide Tree, InOrder, Sorted, Pruned, PlacesKept, PriorityElsewhere, UniqueNames;
      ghost var b := Now();
      if Sorted(b, rank) {
        SortedExcept(b, rank, {p});
      }
      var found := FindChild(p, name);
      prior, gone := found, {};
      if found.Some? {
        if name != "" {
          ChildAt(b, rank, p, found.value);
        }
        gone := Unregister(found.value);
        if Sorted(b, rank) {
          PruneDisturbs(b, Now(), rank, found.value, gone);
          if Sorted(Now(), rank) {
            SortedExcept(Now(), rank, {p});
          }
        }
        PrunedKeeps(b, Now(), rank, found.value, gone, s);
      }
    }

    /** Become the last child of p. */
    method Attach(s: nat, p: nat)
      requires Valid() && s in children && s !in parent && p in children
      requires s in rank && p in rank && rank[s] < rank[p]
      modifies `children, `parent
      ensures Valid() && Now() == Attached(old(Now()), s, p)
      ensures old(InOrder(Now(), rank, {p})) ==> InOrder(Now(), rank, {s})
    {
      hide Tree, InOrder, Attached;
      ghost var c := Now();
      AttachedTree(c, rank, s, p);
      if InOrder(c, rank, {p}) {
        AttachDisturbs(c, rank, s, p);
      }
      parent := parent[s := p];
      children := children[p := children[p] + [s]];
      AttachedIs(c, s, p);
    }
  }

  /** The child of that name, if there was one, has been taken out with everything below it; for an empty
      name the block itself. */
  ghost predicate Removed(b: Blocks, c: Blocks, rank: map<nat, nat>, names: map<nat, string>, p: nat, name: string,
                          prior: Option<nat>, gone: set<nat>) {
    && p in b.children
    && if prior.None? then
         c == b && name != "" && forall x :: x in b.children[p] ==> x !in names || names[x] != name
       else if name == "" then
         prior.value == p && p in b.parent && Pruned(b, c, rank, p, gone)
       else
         && prior.value in b.children[p] && prior.value in names && names[prior.value] == name
         && prior.value in b.parent && b.parent[prior.value] == p && Pruned(b, c, rank, prior.value, gone)
  }

  /** Every child has a name, and no two children of a block have the same one. */
  ghost predicate UniqueNames(children: map<nat, seq<nat>>, names: map<nat, string>) {
    && (forall p, x :: p in children && x in children[p] ==> x in names)
    && (forall p, x, y :: p in children && x in children[p] && y in children[p] && names[x] == names[y] ==> x == y)
  }

  lemma MembersUnique(a: map<nat, seq<nat>>, b: map<nat, seq<nat>>, names: map<nat, string>)
    requires SameMembers(a, b) && UniqueNames(a, names)
    ensures UniqueNames(b, names)
  {
    forall q, x | q in b && x in b[q]
      ensures q in a && x in a[q]
    {
      assert x in multiset(b[q]);
    }
  }

  lemma PrunedUnique(b: Blocks, c: Blocks, rank: map<nat, nat>, s: nat, gone: set<nat>, names: map<nat, string>)
    requires Pruned(b, c, rank, s, gone) && UniqueNames(b.children, names)
    ensures UniqueNames(c.children, names)
  {
    forall q, x | q in c.children && x in c.children[q]
      ensures q in b.children && x in b.children[q]
    {
      assert q in gone ==> Gone(b, c, rank, s, gone, q);
    }
    hide Pruned;
  }

  lemma RegisterUnique(b: Blocks, c: Blocks, rank: map<nat, nat>, names: map<nat, string>, s: nat, p: nat, name: string,
                       prior: Option<nat>, gone: set<nat>, children: map<nat, seq<nat>>)
    requires Tree(b, rank) && UniqueNames(b.children, names) && s !in b.parent
    requires Removed(b, c, rank, names[s := name], p, name, prior, gone)
    requires p in c.children && SameMembers(Attached(c, s, p).children, children)
    ensures UniqueNames(children, names[s := name])
  {
    hide Tree, Removed, SameMembers, Attached;
    forall q, x | q in children && x in children[q]
      ensures x == s || (q in b.children && x in b.children[q] && x in names)
      ensures x == s ==> q == p
      ensures q == p && x != s ==> names[x] != name
    {
      RegisteredChild(b, c, rank, names, s, p, name, prior, gone, children, q, x);
    }
  }

  lemma RegisteredChild(b: Blocks, c: Blocks, rank: map<nat, nat>, names: map<nat, string>, s: nat, p: nat, name: string,
                        prior: Option<nat>, gone: set<nat>, children: map<nat, seq<nat>>, q: nat, x: nat)
    requires Tree(b, rank) && UniqueNames(b.children, names) && s !in b.parent
    requires Removed(b, c, rank, names[s := name], p, name, prior, gone)
    requires p in c.children && SameMembers(Attached(c, s, p).children, children) && q in children && x in children[q]
    ensures x == s || (q in b.children && x in b.children[q] && x in names)
    ensures x == s ==> q == p
    ensures q == p && x != s ==> names[x] != name
  {
    hide Tree, Removed;
    assert x in Attached(c, s, p).children[q] by { assert x in multiset(children[q]); }
    if x != s || q != p {
      assert x in c.children[q];
      KeptChild(b, c, rank, names[s := name], p, name, prior, gone, q, x);
      ChildAt(b, rank, q, x);
      if q == p && prior.Some? {
        ChildAt(b, rank, q, prior.value);
      }
    }
  }

  lemma KeptChild(b: Blocks, c: Blocks, rank: map<nat, nat>, names: map<nat, string>, p: nat, name: string,
                  prior: Option<nat>, gone: set<nat>, q: nat, x: nat)
    requires Tree(b, rank) && Removed(b, c, rank, names, p, name, prior, gone) && q in c.children && x in c.children[q]
    ensures q in b.children && x in b.children[q]
    ensures q == p && prior.None? ==> x !in names || names[x] != name
    ensures q == p ==> name != ""
    ensures q == p && prior.Some? ==>
              prior.value in b.children[q] && prior.value in names && names[prior.value] == name && x != prior.value
  {
    hide Tree;
  }

  /** The effective priorities of a list of siblings. */
  ghost function Priorities(b: Blocks, rank: map<nat, nat>, xs: seq<nat>): (r: seq<int>)
    requires Tree(b, rank)
    ensures |r| == |xs|
  {
    seq(|xs|, i requires 0 <= i < |xs| => if xs[i] in b.children && xs[i] in rank then Effective(b, rank, xs[i]) else 0)
  }

  /** Their order keys. */
  ghost function Keys(order: map<nat, int>, xs: seq<nat>): (r: seq<int>)
    ensures |r| == |xs|
  {
    seq(|xs|, i requires 0 <= i < |xs| => if xs[i] in order then order[xs[i]] else 0)
  }

  /** Where block s belongs among the other children of its parent: behind every sibling that has at least its
      priority and its order key, up to the first that has not. */
  ghost function PlaceOf(b: Blocks, rank: map<nat, nat>, order: map<nat, int>, s: nat): (k: nat)
    requires Tree(b, rank) && s in b.parent && b.parent[s] in b.children && s in b.children && s in rank
    ensures k <= |Without(b.children[b.parent[s]], s)|
  {
    var rest := Without(b.children[b.parent[s]], s);
    Position(Priorities(b, rank, rest), Keys(order, rest), Effective(b, rank, s), if s in order then order[s] else 0)
  }

  /** The tree once the block, then its parent, and so on up to the top have been put in their places. */
  ghost function Climbed(b: Blocks, rank: map<nat, nat>, order: map<nat, int>, s: nat, top: nat): Blocks
    requires Tree(b, rank) && s in b.children && s in rank && (forall x :: x in rank ==> rank[x] <= top)
    decreases top - rank[s]
  {
    if s !in b.parent then b
    else
      ParentAt(b, rank, s);
      MovedTree(b, rank, s, PlaceOf(b, rank, order, s));
      Climbed(Moved(b, s, PlaceOf(b, rank, order, s)), rank, order, b.parent[s], top)
  }

  /** The loop does not stop before k. */
  ghost predicate Passed(prio: seq<int>, keys: seq<int>, e: int, o: int, k: nat) {
    k <= |prio| == |keys| && forall j :: 0 <= j < k ==> prio[j] >= e && keys[j] >= o
  }

  lemma StopOrGo(prio: seq<int>, keys: seq<int>, e: int, o: int, k: nat)
    requires Passed(prio, keys, e, o, k) && k < |prio|
    ensures if prio[k] < e || keys[k] < o then k == Position(prio, keys, e, o) else Passed(prio, keys, e, o, k + 1)
  {
  }

  lemma StopAtEnd(prio: seq<int>, keys: seq<int>, e: int, o: int, k: nat)
    requires Passed(prio, keys, e, o, k) && k == |prio|
    ensures k == Position(prio, keys, e, o)
  {
  }

  /** Reinsertion finds the right place among ordered siblings exactly when no sibling with a lower order key
      has a higher priority. */
  lemma RightPlaceExactly(b: Blocks, rank: map<nat, nat>, s: nat, rest: seq<nat>, prio: seq<int>, keys: seq<int>, o: int)
    requires Tree(b, rank) && s in b.children && s in rank && (forall x :: x in rest ==> x in b.children && x in rank)
    requires prio == Priorities(b, rank, rest) && |keys| == |rest| && Descending(prio)
    ensures RightPlace(b, rank, s, rest, Position(prio, keys, Effective(b, rank, s), o))
       <==> forall j :: 0 <= j < |rest| && keys[j] < o ==> prio[j] <= Effective(b, rank, s)
  {
    hide Tree, Effective, Position;
    var e := Effective(b, rank, s);
    var k := Position(prio, keys, e, o);
    if forall j :: 0 <= j < |rest| && keys[j] < o ==> prio[j] <= e {
      assert forall j :: k <= j < |rest| ==> prio[j] <= e;
      assert forall j :: 0 <= j < k ==> rest[j] in rest && prio[j] == Effective(b, rank, rest[j]);
      assert forall j :: k <= j < |rest| ==> rest[j] in rest && prio[j] == Effective(b, rank, rest[j]);
    } else {
      var j :| 0 <= j < |rest| && keys[j] < o && prio[j] > e;
      assert j >= k && rest[j] in rest[k..] by { assert rest[k..][j - k] == rest[j]; }
    }
  }

  datatype Status = Success | NotApplicable | NotSupported | OutOfMemory

  /** A block that has the setting is where it is found; otherwise the search starts below it. */
  lemma FetchAfterStore(b: Blocks, rank: map<nat, nat>, s: nat, key: nat)
    requires Tree(b, rank) && s in b.children && s in rank && s in b.values
    ensures key in b.values[s] ==> Fetch(b, rank, s, key) == Some(s)
    ensures key !in b.values[s] ==> Fetch(b, rank, s, key) == FirstHolder(b, Preorder(b, rank, s)[1..], key)
  {
    hide Tree;
    FetchIsFirst(b, rank, s, key);
    PreorderFirst(b, rank, s);
  }

  lemma PreorderFirst(b: Blocks, rank: map<nat, nat>, s: nat)
    requires Tree(b, rank) && s in b.children && s in rank
    ensures Preorder(b, rank, s) != [] && Preorder(b, rank, s)[0] == s
  {
    hide Tree;
  }

  //////////////////////////////////////////////////////////////////////////////
  // Facts about the changes
  //////////////////////////////////////////////////////////////////////////////

  /** Every list has the same blocks in it, in whatever order. */
  ghost predicate SameMembers(a: map<nat, seq<nat>>, b: map<nat, seq<nat>>) {
    a.Keys == b.Keys && forall p :: p in a ==> multiset(a[p]) == multiset(b[p])
  }

  lemma Unmoved(a: map<nat, seq<nat>>)
    ensures SameMembers(a, a)
  {
  }

  lemma MembersTrans(a: map<nat, seq<nat>>, b: map<nat, seq<nat>>, c: map<nat, seq<nat>>)
    requires SameMembers(a, b) && SameMembers(b, c)
    ensures SameMembers(a, c)
  {
  }

  lemma ParentAt(b: Blocks, rank: map<nat, nat>, s: nat)
    requires Tree(b, rank) && s in b.parent
    ensures b.parent[s] in b.children && b.parent[s] in rank && s in b.children && s in rank && rank[s] < rank[b.parent[s]]
    ensures s in b.children[b.parent[s]]
  {
    ChildAt(b, rank, b.parent[s], s);
  }

  lemma MovedIs(b: Blocks, s: nat, k: nat)
    requires s in b.parent && b.parent[s] in b.children && k <= |Without(b.children[b.parent[s]], s)|
    ensures var p := b.parent[s];
      Moved(b, s, k) == Blocks(b.children[p := InsertAt(Without(b.children[p], s), k, s)], b.parent, b.values)
  {
  }

  lemma MovedMembers(b: Blocks, rank: map<nat, nat>, s: nat, k: nat)
    requires Tree(b, rank) && s in b.parent && b.parent[s] in b.children && s in b.children[b.parent[s]]
    requires k <= |Without(b.children[b.parent[s]], s)|
    ensures SameMembers(b.children, Moved(b, s, k).children)
  {
    var p := b.parent[s];
    BlockAt(b, rank, p);
    DistinctChildren(b, rank, p);
    WithoutMultiset(b.children[p], s);
    hide Without, Tree, Distinct;
    InsertMultiset(Without(b.children[p], s), k, s);
    hide InsertAt;
  }

  lemma InsertMultiset(cs: seq<nat>, k: nat, s: nat)
    requires k <= |cs|
    ensures multiset(InsertAt(cs, k, s)) == multiset(cs) + multiset{s}
  {
    assert cs == cs[..k] + cs[k..];
  }

  lemma StoredTree(b: Blocks, rank: map<nat, nat>, s: nat, m: map<nat, int>)
    requires Tree(b, rank) && s in b.children && s in b.values
    ensures var c := b.(values := b.values[s := m]);
      Tree(c, rank) && Agree(c, b, {s})
  {
    hide Distinct;
    var c := b.(values := b.values[s := m]);
    forall p | p in c.children
      ensures ChildrenOk(c, rank, p) && p in b.values
    {
      BlockAt(b, rank, p);
    }
    hide ChildrenOk;
  }

  /** Priorities do not depend on other settings. */
  lemma {:induction false} SameFetch(b: Blocks, c: Blocks, rank: map<nat, nat>, x: nat)
    requires Tree(b, rank) && Tree(c, rank) && c.children == b.children && x in b.children && x in rank
    requires SamePriorities(b, c)
    ensures Fetch(c, rank, x, PRIORITY) == Fetch(b, rank, x, PRIORITY)
    decreases rank[x], 1, 0
  {
    BlockAt(b, rank, x);
    BlockAt(c, rank, x);
    ListedChildren(b, rank, x);
    ListedChildren(c, rank, x);
    hide Tree;
    SameFetchIn(b, c, rank, b.children[x], rank[x]);
  }

  lemma {:induction false} SameFetchIn(b: Blocks, c: Blocks, rank: map<nat, nat>, cs: seq<nat>, bound: nat)
    requires Tree(b, rank) && Tree(c, rank) && c.children == b.children
    requires Listed(b, rank, cs, bound) && Listed(c, rank, cs, bound) && SamePriorities(b, c)
    ensures FetchIn(c, rank, cs, PRIORITY, bound) == FetchIn(b, rank, cs, PRIORITY, bound)
    decreases bound, 0, |cs|
  {
    hide Tree, SamePriorities;
    if cs != [] {
      SameFetch(b, c, rank, cs[0]);
      SameFetchIn(b, c, rank, cs[1..], bound);
    }
  }

  ghost predicate SamePriorities(b: Blocks, c: Blocks) {
    && b.values.Keys == c.values.Keys
    && forall x :: x in b.values ==>
         && (PRIORITY in b.values[x] <==> PRIORITY in c.values[x])
         && (PRIORITY in b.values[x] ==> b.values[x][PRIORITY] == c.values[x][PRIORITY])
  }

  lemma OtherSetting(b: Blocks, c: Blocks, rank: map<nat, nat>, s: nat)
    requires Tree(b, rank) && Tree(c, rank) && c.children == b.children && SamePriorities(b, c) && Sorted(b, rank)
    ensures Sorted(c, rank)
  {
    hide Tree, Ahead, Avoids, SamePriorities;
    forall p, x, y | Ahead(c, p, x, y)
      ensures PairInOrder(c, rank, {}, x, y)
    {
      AheadChildren(c, rank, p, x, y);
      AheadIsBefore(c, p, x, y);
      AheadIsBefore(b, p, x, y);
      AvoidsNothing(b, rank, x);
      AvoidsNothing(b, rank, y);
      assert PairInOrder(b, rank, {}, x, y);
      SameEffective(b, c, rank, x);
      SameEffective(b, c, rank, y);
    }
  }

  lemma SameEffective(b: Blocks, c: Blocks, rank: map<nat, nat>, x: nat)
    requires Tree(b, rank) && Tree(c, rank) && c.children == b.children && x in b.children && x in rank
    requires SamePriorities(b, c)
    ensures Effective(c, rank, x) == Effective(b, rank, x)
  {
    hide Tree;
    SameFetch(b, c, rank, x);
  }

  lemma PruneShortens(b: Blocks, c: Blocks, rank: map<nat, nat>, s: nat, k: nat, g: set<nat>)
    requires Tree(b, rank) && Pruned(b, c, rank, k, g) && s in b.children && k in b.children[s] && k in b.parent && b.parent[k] == s
    ensures s in c.children && |c.children[s]| < |b.children[s]|
    ensures s in b.parent ==> s in c.parent
  {
    ParentNotGone(b, c, rank, k, g);
    PrunedKept(b, c, rank, k, g, s);
    BlockAt(b, rank, s);
    DistinctChildren(b, rank, s);
    WithoutShorter(b.children[s], k);
  }

  lemma ParentNotGone(b: Blocks, c: Blocks, rank: map<nat, nat>, k: nat, g: set<nat>)
    requires Pruned(b, c, rank, k, g)
    ensures k in b.parent && b.parent[k] !in g
  {
  }

  lemma WithoutShorter(cs: seq<nat>, k: nat)
    requires Distinct(cs) && k in cs
    ensures |Without(cs, k)| < |cs|
  {
    WithoutMultiset(cs, k);
    assert |multiset(cs)| == |cs|;
    assert |multiset(Without(cs, k))| == |Without(cs, k)|;
  }

  lemma UnlinkedIs(c: Blocks, s: nat)
    requires s in c.parent && c.parent[s] in c.children
    ensures var p := c.parent[s];
      Unlinked(c, s) == Blocks(c.children[p := Without(c.children[p], s)], c.parent - {s}, c.values)
  {
  }

  lemma AttachedIs(c: Blocks, s: nat, p: nat)
    requires p in c.children
    ensures Attached(c, s, p) == Blocks(c.children[p := c.children[p] + [s]], c.parent[s := p], c.values)
  {
  }

  lemma PrunedKeeps(b: Blocks, c: Blocks, rank: map<nat, nat>, k: nat, g: set<nat>, s: nat)
    requires Pruned(b, c, rank, k, g) && s in b.children && s !in b.parent
    ensures s in c.children && s !in c.parent && b.parent[k] in c.children && c.values == b.values
    ensures c.children.Keys == b.children.Keys
  {
    hide Gone, Without;
  }
}
