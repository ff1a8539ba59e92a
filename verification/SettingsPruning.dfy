/** unregister_settings takes a block out without looking at the order of what contained it: exactly when the
    settings are still in order afterwards. */
module SettingsPruning {
  import opened Options
  import opened Lists
  import opened SettingsTree
  import opened SettingsOrder
  import opened SettingsChanges

  //////////////////////////////////////////////////////////////////////////////
  // Searching as if a block were not there
  //////////////////////////////////////////////////////////////////////////////

  /** What fetch_setting would find without block s and everything below it. */
  ghost function FetchSparing(b: Blocks, rank: map<nat, nat>, x: nat, key: nat, s: nat): (r: Option<nat>)
    requires Tree(b, rank) && x in b.children && x in rank
    ensures r.Some? ==> r.value in b.values && key in b.values[r.value]
    decreases rank[x], 1, 0
  {
    ListedChildren(b, rank, x);
    if x == s then None
    else if key in b.values[x] then Some(x)
    else FetchInSparing(b, rank, b.children[x], key, s, rank[x])
  }

  ghost function FetchInSparing(b: Blocks, rank: map<nat, nat>, cs: seq<nat>, key: nat, s: nat, bound: nat): (r: Option<nat>)
    requires Tree(b, rank) && Listed(b, rank, cs, bound)
    ensures r.Some? ==> r.value in b.values && key in b.values[r.value]
    decreases bound, 0, |cs|
  {
    if cs == [] then None
    else
      var first := FetchSparing(b, rank, cs[0], key, s);
      if first.Some? then first else FetchInSparing(b, rank, cs[1..], key, s, bound)
  }

  /** The effective priority that a block would have without block s. */
  ghost function Remaining(b: Blocks, rank: map<nat, nat>, x: nat, s: nat): int
    requires Tree(b, rank) && x in b.children && x in rank
  {
    var o := FetchSparing(b, rank, x, PRIORITY, s);
    if o.Some? then b.values[o.value][PRIORITY] else 0
  }

  /** This is what is found once the block has been taken out. */
  lemma {:induction false} PrunedFetch(b: Blocks, c: Blocks, rank: map<nat, nat>, s: nat, gone: set<nat>, x: nat, key: nat)
    requires Tree(b, rank) && Tree(c, rank) && Pruned(b, c, rank, s, gone)
    requires x in b.children && x in rank && x !in gone
    ensures x in c.children && Fetch(c, rank, x, key) == FetchSparing(b, rank, x, key, s)
    decreases rank[x], 1, 0
  {
    PrunedKept(b, c, rank, s, gone, x);
    ListedChildren(b, rank, x);
    ListedChildren(c, rank, x);
    hide Tree, Pruned, Without;
    PrunedChildren(b, c, rank, s, gone, x);
    PrunedFetchIn(b, c, rank, s, gone, b.children[x], key, rank[x]);
  }

  lemma PrunedChildren(b: Blocks, c: Blocks, rank: map<nat, nat>, s: nat, gone: set<nat>, x: nat)
    requires Tree(b, rank) && Pruned(b, c, rank, s, gone) && x in b.children && x !in gone
    ensures x in c.children && c.children[x] == Without(b.children[x], s)
    ensures forall k :: k in b.children[x] ==> k == s || k !in gone
  {
    PrunedKept(b, c, rank, s, gone, x);
    hide Tree, Pruned, Without;
    forall k | k in b.children[x]
      ensures k == s || k !in gone
      ensures k == s ==> x == b.parent[s]
    {
      ChildAt(b, rank, x, k);
      if k in gone {
        PrunedGone(b, c, rank, s, gone, k);
      }
    }
    if x != b.parent[s] {
      WithoutAbsent(b.children[x], s);
    }
  }

  lemma {:induction false} PrunedFetchIn(b: Blocks, c: Blocks, rank: map<nat, nat>, s: nat, gone: set<nat>, cs: seq<nat>,
                                         key: nat, bound: nat)
    requires Tree(b, rank) && Tree(c, rank) && Pruned(b, c, rank, s, gone)
    requires Listed(b, rank, cs, bound) && Listed(c, rank, Without(cs, s), bound)
    requires forall k :: k in cs ==> k == s || k !in gone
    ensures FetchIn(c, rank, Without(cs, s), key, bound) == FetchInSparing(b, rank, cs, key, s, bound)
    decreases bound, 0, |cs|
  {
    hide Tree, Pruned;
    if cs != [] {
      WithoutFirst(cs, s);
      hide Without;
      PrunedFetchIn(b, c, rank, s, gone, cs[1..], key, bound);
      if cs[0] != s {
        PrunedFetch(b, c, rank, s, gone, cs[0], key);
      }
    }
  }

  lemma WithoutFirst(cs: seq<nat>, s: nat)
    requires cs != []
    ensures cs[0] == s ==> Without(cs, s) == Without(cs[1..], s)
    ensures cs[0] != s ==> |Without(cs, s)| > 0 && Without(cs, s)[0] == cs[0] && Without(cs, s)[1..] == Without(cs[1..], s)
  {
  }

  lemma PrunedPriority(b: Blocks, c: Blocks, rank: map<nat, nat>, s: nat, gone: set<nat>, x: nat)
    requires Tree(b, rank) && Tree(c, rank) && Pruned(b, c, rank, s, gone)
    requires x in b.children && x in rank && x !in gone
    ensures x in c.children && Effective(c, rank, x) == Remaining(b, rank, x, s)
  {
    PrunedFetch(b, c, rank, s, gone, x, PRIORITY);
    PrunedKept(b, c, rank, s, gone, x);
    hide Tree, Pruned, Fetch, FetchSparing;
  }

  //////////////////////////////////////////////////////////////////////////////
  // What does not contain the block does not notice
  //////////////////////////////////////////////////////////////////////////////

  lemma {:induction false} SparingAvoids(b: Blocks, rank: map<nat, nat>, x: nat, key: nat, s: nat)
    requires Tree(b, rank) && x in b.children && x in rank && Avoids(b, rank, x, {s})
    ensures FetchSparing(b, rank, x, key, s) == Fetch(b, rank, x, key)
    decreases rank[x], 1, 0
  {
    ListedChildren(b, rank, x);
    hide Tree;
    SparingInAvoids(b, rank, b.children[x], key, s, rank[x]);
  }

  lemma {:induction false} SparingInAvoids(b: Blocks, rank: map<nat, nat>, cs: seq<nat>, key: nat, s: nat, bound: nat)
    requires Tree(b, rank) && Listed(b, rank, cs, bound)
    requires forall k :: k in cs ==> Avoids(b, rank, k, {s})
    ensures FetchInSparing(b, rank, cs, key, s, bound) == FetchIn(b, rank, cs, key, bound)
    decreases bound, 0, |cs|
  {
    hide Tree, Avoids;
    if cs != [] {
      SparingAvoids(b, rank, cs[0], key, s);
      SparingInAvoids(b, rank, cs[1..], key, s, bound);
    }
  }

  lemma SamePriorityWithout(b: Blocks, rank: map<nat, nat>, x: nat, s: nat)
    requires Tree(b, rank) && x in b.children && x in rank && Avoids(b, rank, x, {s})
    ensures Remaining(b, rank, x, s) == Effective(b, rank, x)
  {
    hide Tree, Avoids, Fetch, FetchSparing;
    SparingAvoids(b, rank, x, PRIORITY, s);
  }

  /** What contains a block, other than the block itself, ranks above it and contains its parent. */
  lemma ContainsParent(b: Blocks, rank: map<nat, nat>, x: nat, s: nat)
    requires Tree(b, rank) && x in b.children && x in rank && x != s && !Avoids(b, rank, x, {s})
    ensures s in b.parent && !Avoids(b, rank, x, {b.parent[s]})
    ensures b.parent[s] in rank && rank[b.parent[s]] <= rank[x] && s in rank && rank[s] < rank[b.parent[s]]
  {
    hide Avoids;
    if s !in b.parent {
      AvoidsRoot(b, rank, x, s);
      assert false;
    }
    var p := b.parent[s];
    ChildAt(b, rank, p, s);
    hide Tree;
    if Avoids(b, rank, x, {p}) {
      AvoidsChild(b, rank, x, s);
    } else if rank[x] < rank[p] {
      AvoidsHigher(b, rank, x, p);
    }
  }

  /** Two siblings do not contain the same block. */
  lemma {:induction false} Apart(b: Blocks, rank: map<nat, nat>, q: nat, x: nat, y: nat, s: nat)
    requires Tree(b, rank) && q in b.children && x in b.children[q] && y in b.children[q] && x != y && s in rank
    requires x in b.children && x in rank && y in b.children && y in rank
    requires !Avoids(b, rank, x, {s}) && rank[s] <= rank[x]
    ensures Avoids(b, rank, y, {s})
    decreases rank[x] - rank[s]
  {
    ChildAt(b, rank, q, x);
    ChildAt(b, rank, q, y);
    hide Tree, Avoids;
    if !Avoids(b, rank, y, {s}) {
      if x == s {
        ContainsParent(b, rank, y, s);
        assert false;
      } else if y == s {
        ContainsParent(b, rank, x, s);
        assert false;
      } else {
        ContainsParent(b, rank, x, s);
        ContainsParent(b, rank, y, s);
        Apart(b, rank, q, x, y, b.parent[s]);
        assert false;
      }
    }
  }

  //////////////////////////////////////////////////////////////////////////////
  // The exact condition
  //////////////////////////////////////////////////////////////////////////////

  /** Without block s, block a would still be in its place among its siblings. */
  ghost predicate PlaceKept(b: Blocks, rank: map<nat, nat>, a: nat, s: nat)
    requires Tree(b, rank) && a in b.children && a in rank
  {
    && (forall q, x :: Ahead(b, q, x, a) && x in b.children && x in rank ==>
          Effective(b, rank, x) >= Remaining(b, rank, a, s))
    && (forall q, y :: Ahead(b, q, a, y) && y in b.children && y in rank ==>
          Remaining(b, rank, a, s) >= Effective(b, rank, y))
  }

  /** Every block that contains s would still be in its place. */
  ghost predicate PlacesKept(b: Blocks, rank: map<nat, nat>, s: nat)
    requires Tree(b, rank)
  {
    forall a :: a in b.children && a in rank && a != s && !Avoids(b, rank, a, {s}) ==> PlaceKept(b, rank, a, s)
  }

  /** Unregistering a block leaves the settings in order if and only if, as they are before the call, everything
      that contains the block would still be in its place without it. */
  lemma SortedAfterPruning(b: Blocks, c: Blocks, rank: map<nat, nat>, s: nat, gone: set<nat>)
    requires Tree(b, rank) && Sorted(b, rank) && Pruned(b, c, rank, s, gone)
    ensures Tree(c, rank) && (Sorted(c, rank) <==> PlacesKept(b, rank, s))
  {
    PrunedTree(b, c, rank, s, gone);
    PrunedBlock(b, c, rank, s, gone);
    hide Tree, Avoids, Effective, Remaining, Ahead, Pruned;
    if PlacesKept(b, rank, s) {
      forall q, x, y | Ahead(c, q, x, y)
        ensures PairInOrder(c, rank, {}, x, y)
      {
        PrunedPair(b, c, rank, s, gone, q, x, y);
      }
    }
    if Sorted(c, rank) {
      forall a | a in b.children && a in rank && a != s && !Avoids(b, rank, a, {s})
        ensures PlaceKept(b, rank, a, s)
      {
        PlaceIsKept(b, c, rank, s, gone, a);
      }
    }
  }

  lemma PrunedBlock(b: Blocks, c: Blocks, rank: map<nat, nat>, s: nat, gone: set<nat>)
    requires Tree(b, rank) && Pruned(b, c, rank, s, gone)
    ensures s in gone && s in b.parent && b.parent[s] in b.children && s in b.children[b.parent[s]] && s in rank && s in b.children
    ensures b.parent[s] !in gone
    ensures forall x :: x in gone ==> x in rank && rank[x] <= rank[s]
  {
    hide Without;
    ChildAt(b, rank, b.parent[s], s);
  }

  lemma PrunedPair(b: Blocks, c: Blocks, rank: map<nat, nat>, s: nat, gone: set<nat>, q: nat, x: nat, y: nat)
    requires Tree(b, rank) && Tree(c, rank) && Sorted(b, rank) && Pruned(b, c, rank, s, gone) && s in rank && s in gone
    requires PlacesKept(b, rank, s) && Ahead(c, q, x, y)
    ensures PairInOrder(c, rank, {}, x, y)
  {
    hide Tree, Avoids, Effective, Remaining, Ahead, Pruned;
    AheadChildren(c, rank, q, x, y);
    PrunedAhead(b, c, rank, s, gone, q, x, y);
    AheadChildren(b, rank, q, x, y);
    PrunedPriority(b, c, rank, s, gone, x);
    PrunedPriority(b, c, rank, s, gone, y);
    AheadDistinct(b, rank, q, x, y);
    if !Avoids(b, rank, x, {s}) {
      ContainsParent(b, rank, x, s);
      Apart(b, rank, q, x, y, s);
      SamePriorityWithout(b, rank, y, s);
      assert PlaceKept(b, rank, x, s);
    } else if !Avoids(b, rank, y, {s}) {
      SamePriorityWithout(b, rank, x, s);
      assert PlaceKept(b, rank, y, s);
    } else {
      SamePriorityWithout(b, rank, x, s);
      SamePriorityWithout(b, rank, y, s);
      AvoidsNothing(b, rank, x);
      AvoidsNothing(b, rank, y);
      assert PairInOrder(b, rank, {}, x, y);
    }
  }

  lemma AheadDistinct(b: Blocks, rank: map<nat, nat>, q: nat, x: nat, y: nat)
    requires Tree(b, rank) && Ahead(b, q, x, y)
    ensures x != y
  {
    BlockAt(b, rank, q);
  }

  lemma PlaceIsKept(b: Blocks, c: Blocks, rank: map<nat, nat>, s: nat, gone: set<nat>, a: nat)
    requires Tree(b, rank) && Tree(c, rank) && Sorted(c, rank) && Pruned(b, c, rank, s, gone) && s in rank
    requires forall x :: x in gone ==> x in rank && rank[x] <= rank[s]
    requires a in b.children && a in rank && a != s && !Avoids(b, rank, a, {s})
    ensures PlaceKept(b, rank, a, s)
  {
    hide Tree, Avoids, Effective, Remaining, Ahead, Pruned;
    ContainsParent(b, rank, a, s);
    forall q, x | Ahead(b, q, x, a) && x in b.children && x in rank
      ensures Effective(b, rank, x) >= Remaining(b, rank, a, s)
    {
      AheadDistinct(b, rank, q, x, a);
      AheadChildren(b, rank, q, x, a);
      SiblingKept(b, c, rank, s, gone, a, q, x);
      KeptAhead(b, c, rank, s, gone, q, x, a);
      KeptOrder(c, rank, q, x, a);
    }
    forall q, y | Ahead(b, q, a, y) && y in b.children && y in rank
      ensures Remaining(b, rank, a, s) >= Effective(b, rank, y)
    {
      AheadDistinct(b, rank, q, a, y);
      AheadChildren(b, rank, q, a, y);
      SiblingKept(b, c, rank, s, gone, a, q, y);
      KeptAhead(b, c, rank, s, gone, q, a, y);
      KeptOrder(c, rank, q, a, y);
    }
  }

  /** A sibling of something that contains the block is not affected. */
  lemma SiblingKept(b: Blocks, c: Blocks, rank: map<nat, nat>, s: nat, gone: set<nat>, a: nat, q: nat, x: nat)
    requires Tree(b, rank) && Tree(c, rank) && Pruned(b, c, rank, s, gone) && s in rank
    requires forall x :: x in gone ==> x in rank && rank[x] <= rank[s]
    requires a in b.children && a in rank && a != s && !Avoids(b, rank, a, {s})
    requires q in b.children && a in b.children[q] && x in b.children[q] && x != a && x in b.children && x in rank
    ensures q !in gone && a !in gone && x !in gone && q in rank && q != b.parent[s] && s in b.parent
    ensures a in c.children && Effective(c, rank, a) == Remaining(b, rank, a, s)
    ensures x in c.children && Effective(c, rank, x) == Effective(b, rank, x)
  {
    hide Tree, Avoids, Effective, Remaining, Pruned;
    ContainsParent(b, rank, a, s);
    ChildAt(b, rank, q, a);
    ChildAt(b, rank, q, x);
    Apart(b, rank, q, a, x, s);
    AvoidsSelf(b, rank, x, s);
    if x in gone {
      PrunedGone(b, c, rank, s, gone, x);
      assert false;
    }
    PrunedPriority(b, c, rank, s, gone, a);
    PrunedPriority(b, c, rank, s, gone, x);
    SamePriorityWithout(b, rank, x, s);
  }

  lemma KeptAhead(b: Blocks, c: Blocks, rank: map<nat, nat>, s: nat, gone: set<nat>, q: nat, x: nat, y: nat)
    requires Pruned(b, c, rank, s, gone) && q in b.children && q !in gone && s in b.parent && q != b.parent[s] && Ahead(b, q, x, y)
    ensures Ahead(c, q, x, y)
  {
    hide Ahead, Pruned, Before;
    PrunedKept(b, c, rank, s, gone, q);
    AheadIsBefore(b, q, x, y);
    AheadIsBefore(c, q, x, y);
  }

  lemma KeptOrder(c: Blocks, rank: map<nat, nat>, q: nat, x: nat, y: nat)
    requires Tree(c, rank) && Sorted(c, rank) && Ahead(c, q, x, y)
    ensures x in c.children && x in rank && y in c.children && y in rank && Effective(c, rank, x) >= Effective(c, rank, y)
  {
    hide Tree, Avoids, Effective, Ahead;
    AheadChildren(c, rank, q, x, y);
    AvoidsNothing(c, rank, x);
    AvoidsNothing(c, rank, y);
    assert PairInOrder(c, rank, {}, x, y);
  }

  //////////////////////////////////////////////////////////////////////////////
  // A simple check
  //////////////////////////////////////////////////////////////////////////////

  /** The priority of nothing that contains s comes from s or from below it. */
  ghost predicate PriorityElsewhere(b: Blocks, rank: map<nat, nat>, s: nat)
    requires Tree(b, rank) && s in b.children && s in rank
  {
    forall a :: a in b.children && a in rank && a != s && !Avoids(b, rank, a, {s}) ==>
      var o := Fetch(b, rank, a, PRIORITY);
      o.Some? ==> o.value !in Preorder(b, rank, s)
  }

  lemma {:induction false} SparingElsewhere(b: Blocks, rank: map<nat, nat>, x: nat, key: nat, s: nat)
    requires Tree(b, rank) && x in b.children && x in rank && s in b.children && s in rank
    requires Fetch(b, rank, x, key).Some? ==> Fetch(b, rank, x, key).value !in Preorder(b, rank, s)
    ensures FetchSparing(b, rank, x, key, s) == Fetch(b, rank, x, key)
    decreases rank[x], 1, 0
  {
    ListedChildren(b, rank, x);
    hide Tree, Preorder;
    if x == s {
      FoundBelow(b, rank, s, key);
    } else if key !in b.values[x] {
      SparingInElsewhere(b, rank, b.children[x], key, s, rank[x]);
    }
  }

  lemma {:induction false} SparingInElsewhere(b: Blocks, rank: map<nat, nat>, cs: seq<nat>, key: nat, s: nat, bound: nat)
    requires Tree(b, rank) && Listed(b, rank, cs, bound) && s in b.children && s in rank
    requires FetchIn(b, rank, cs, key, bound).Some? ==> FetchIn(b, rank, cs, key, bound).value !in Preorder(b, rank, s)
    ensures FetchInSparing(b, rank, cs, key, s, bound) == FetchIn(b, rank, cs, key, bound)
    decreases bound, 0, |cs|
  {
    hide Tree, Preorder;
    if cs != [] {
      SparingElsewhere(b, rank, cs[0], key, s);
      if Fetch(b, rank, cs[0], key).None? {
        SparingInElsewhere(b, rank, cs[1..], key, s, bound);
      }
    }
  }

  lemma FoundBelow(b: Blocks, rank: map<nat, nat>, s: nat, key: nat)
    requires Tree(b, rank) && s in b.children && s in rank
    ensures Fetch(b, rank, s, key).Some? ==> Fetch(b, rank, s, key).value in Preorder(b, rank, s)
  {
    hide Tree, Preorder, Fetch;
    FetchIsFirst(b, rank, s, key);
    HolderListed(b, Preorder(b, rank, s), key);
  }

  lemma {:induction false} HolderListed(b: Blocks, order: seq<nat>, key: nat)
    ensures FirstHolder(b, order, key).Some? ==> FirstHolder(b, order, key).value in order
  {
    if order != [] {
      HolderListed(b, order[1..], key);
    }
  }

  /** If no priority is taken from the block or from below it, unregistering it disturbs nothing. */
  lemma PruningDisturbsNothing(b: Blocks, c: Blocks, rank: map<nat, nat>, s: nat, gone: set<nat>)
    requires Tree(b, rank) && Sorted(b, rank) && Pruned(b, c, rank, s, gone) && s in b.children && s in rank
    requires PriorityElsewhere(b, rank, s)
    ensures Tree(c, rank) && Sorted(c, rank)
  {
    SortedAfterPruning(b, c, rank, s, gone);
    hide Tree, Avoids, Pruned, Ahead, Preorder, Fetch, FetchSparing;
    forall a | a in b.children && a in rank && a != s && !Avoids(b, rank, a, {s})
      ensures PlaceKept(b, rank, a, s)
    {
      SparingElsewhere(b, rank, a, PRIORITY, s);
      assert Remaining(b, rank, a, s) == Effective(b, rank, a);
      PlaceInOrder(b, rank, a, s);
    }
  }

  lemma PlaceInOrder(b: Blocks, rank: map<nat, nat>, a: nat, s: nat)
    requires Tree(b, rank) && Sorted(b, rank) && a in b.children && a in rank
    requires Remaining(b, rank, a, s) == Effective(b, rank, a)
    ensures PlaceKept(b, rank, a, s)
  {
    hide Tree, Avoids, Ahead, Effective, Remaining;
    forall q, x | Ahead(b, q, x, a) && x in b.children && x in rank
      ensures Effective(b, rank, x) >= Remaining(b, rank, a, s)
    {
      KeptOrder(b, rank, q, x, a);
    }
    forall q, y | Ahead(b, q, a, y) && y in b.children && y in rank
      ensures Remaining(b, rank, a, s) >= Effective(b, rank, y)
    {
      KeptOrder(b, rank, q, a, y);
    }
  }

  //////////////////////////////////////////////////////////////////////////////
  // An example
  //////////////////////////////////////////////////////////////////////////////

  /** Block 0 contains 1 and 2, and 1 contains 3. Block 3 has priority 10, and block 2 has priority 5. */
  ghost predicate SmallTree(b: Blocks, rank: map<nat, nat>) {
    && b == Blocks(map[0 := [1, 2], 1 := [3], 2 := [], 3 := []], map[1 := 0, 2 := 0, 3 := 1],
                   map[0 := map[], 1 := map[], 2 := map[PRIORITY := 5], 3 := map[PRIORITY := 10]])
    && rank == map[0 := 2, 1 := 1, 2 := 0, 3 := 0]
  }

  /** Without block 3, block 1 no longer belongs ahead of block 2, and stays there. */
  lemma PruningDisturbsExample(b: Blocks, c: Blocks, rank: map<nat, nat>)
    requires SmallTree(b, rank)
    requires c == Blocks(b.children[1 := []], map[1 := 0, 2 := 0], b.values)
    ensures Tree(b, rank) && Sorted(b, rank) && Pruned(b, c, rank, 3, {3})
    ensures Tree(c, rank) && !Sorted(c, rank)
  {
    SmallTreeOk(b, rank);
    SmallTreeSorted(b, rank);
    SmallTreePruned(b, c, rank);
    PrunedTree(b, c, rank, 3, {3});
    LeafPriority(c, rank, 1);
    LeafPriority(c, rank, 2);
    hide Tree, Effective, Avoids;
    FirstPair(c);
    hide Ahead, Pruned;
    if Sorted(c, rank) {
      KeptOrder(c, rank, 0, 1, 2);
    }
  }

  lemma FirstPair(c: Blocks)
    requires 0 in c.children && c.children[0] == [1, 2]
    ensures Ahead(c, 0, 1, 2)
  {
    assert c.children[0][0] == 1 && c.children[0][1] == 2;
  }

  lemma SmallTreeOk(b: Blocks, rank: map<nat, nat>)
    requires SmallTree(b, rank)
    ensures Tree(b, rank)
  {
    assert b.children[0][0] == 1 && b.children[0][1] == 2;
    forall p | p in b.children
      ensures ChildrenOk(b, rank, p)
    {
      assert p == 0 || p == 1 || p == 2 || p == 3;
    }
  }

  lemma SmallTreeSorted(b: Blocks, rank: map<nat, nat>)
    requires SmallTree(b, rank) && Tree(b, rank)
    ensures Sorted(b, rank)
  {
    LeafPriority(b, rank, 2);
    LeafPriority(b, rank, 3);
    OnlyChildPriority(b, rank, 1, 3);
    hide Tree, Effective, Avoids, Ahead;
    forall p, x, y | Ahead(b, p, x, y)
      ensures PairInOrder(b, rank, {}, x, y)
    {
      OnlyPair(b, p, x, y);
    }
  }

  lemma OnlyPair(b: Blocks, p: nat, x: nat, y: nat)
    requires b.children == map[0 := [1, 2], 1 := [3], 2 := [], 3 := []] && Ahead(b, p, x, y)
    ensures p == 0 && x == 1 && y == 2
  {
  }

  lemma SmallTreePruned(b: Blocks, c: Blocks, rank: map<nat, nat>)
    requires SmallTree(b, rank) && c == Blocks(b.children[1 := []], map[1 := 0, 2 := 0], b.values)
    ensures Pruned(b, c, rank, 3, {3})
  {
    assert [3][1..] == [] && Without([], 3) == [];
    assert Without(b.children[1], 3) == [];
    assert c.parent == b.parent - {3};
    assert Gone(b, c, rank, 3, {3}, 3);
  }

  lemma LeafPriority(b: Blocks, rank: map<nat, nat>, x: nat)
    requires Tree(b, rank) && x in b.children && x in rank && x in b.values && b.children[x] == []
    ensures Effective(b, rank, x) == if PRIORITY in b.values[x] then b.values[x][PRIORITY] else 0
  {
    ListedChildren(b, rank, x);
    hide Tree;
    assert FetchIn(b, rank, [], PRIORITY, rank[x]) == None;
  }

  lemma OnlyChildPriority(b: Blocks, rank: map<nat, nat>, x: nat, k: nat)
    requires Tree(b, rank) && x in b.children && x in rank && x in b.values && b.children[x] == [k]
    requires PRIORITY !in b.values[x] && k in b.children && k in rank && k in b.values && PRIORITY in b.values[k]
    ensures Effective(b, rank, x) == b.values[k][PRIORITY]
  {
    ListedChildren(b, rank, x);
    hide Tree;
    assert Fetch(b, rank, k, PRIORITY) == Some(k);
    assert FetchIn(b, rank, [k], PRIORITY, rank[x]) == Some(k);
  }
}
