/** Attaching a block to the tree of settings, and detaching one with everything below it. */
module SettingsChanges {
  import opened Options
  import opened Lists
  import opened SettingsTree
  import opened SettingsOrder

  //////////////////////////////////////////////////////////////////////////////
  // Attaching
  //////////////////////////////////////////////////////////////////////////////

  /** The tree with block s as the last child of p. */
  function Attached(b: Blocks, s: nat, p: nat): Blocks
    requires p in b.children
  {
    b.(children := b.children[p := b.children[p] + [s]], parent := b.parent[s := p])
  }

  lemma AttachedTree(b: Blocks, rank: map<nat, nat>, s: nat, p: nat)
    requires Tree(b, rank) && s in b.children && s !in b.parent && p in b.children
    requires s in rank && p in rank && rank[s] < rank[p]
    ensures Tree(Attached(b, s, p), rank) && Agree(Attached(b, s, p), b, {p})
  {
    var b' := Attached(b, s, p);
    hide ChildrenOk;
    forall q | q in b'.children
      ensures ChildrenOk(b', rank, q) && q in b.values
    {
      AttachedAt(b, rank, s, p, q);
    }
    AttachedParents(b, rank, s, p);
  }

  lemma AttachedAt(b: Blocks, rank: map<nat, nat>, s: nat, p: nat, q: nat)
    requires Tree(b, rank) && s in b.children && s !in b.parent && p in b.children && q in b.children
    requires s in rank && p in rank && rank[s] < rank[p]
    ensures ChildrenOk(Attached(b, s, p), rank, q) && q in b.values
  {
    BlockAt(b, rank, q);
    hide Tree;
    assert s !in b.children[q];
  }

  lemma AttachedParents(b: Blocks, rank: map<nat, nat>, s: nat, p: nat)
    requires Tree(b, rank) && s !in b.parent && p in b.children
    ensures var b' := Attached(b, s, p);
      forall c :: c in b'.parent ==> b'.parent[c] in b'.children && c in b'.children[b'.parent[c]]
  {
  }

  /** What avoids a block avoids its parent. */
  lemma {:induction false} AvoidsParent(b: Blocks, rank: map<nat, nat>, x: nat, s: nat)
    requires Tree(b, rank) && x in b.children && x in rank && s in b.parent
    requires Avoids(b, rank, x, {s})
    ensures Avoids(b, rank, x, {b.parent[s]})
    decreases rank[x]
  {
    assert s in b.children[b.parent[s]];
    hide Tree;
    if x == b.parent[s] {
      ChildAt(b, rank, x, s);
      assert false;
    }
    forall c | c in b.children[x]
      ensures c in b.children && c in rank && Avoids(b, rank, c, {b.parent[s]})
    {
      ChildAt(b, rank, x, c);
      AvoidsParent(b, rank, c, s);
    }
  }

  lemma BeforeAppend(cs: seq<nat>, s: nat, x: nat, y: nat)
    requires Before(cs + [s], x, y) && x != s && y != s
    ensures Before(cs, x, y)
  {
    var i, j :| 0 <= i < j < |cs + [s]| && (cs + [s])[i] == x && (cs + [s])[j] == y;
    assert cs[i] == x && cs[j] == y;
  }

  /** Attaching can only disturb the new block and what contains it. */
  lemma AttachDisturbs(b: Blocks, rank: map<nat, nat>, s: nat, p: nat)
    requires Tree(b, rank) && s in b.children && s !in b.parent && p in b.children
    requires s in rank && p in rank && rank[s] < rank[p]
    requires InOrder(b, rank, {p})
    ensures Tree(Attached(b, s, p), rank) && InOrder(Attached(b, s, p), rank, {s})
  {
    AttachedTree(b, rank, s, p);
    var b' := Attached(b, s, p);
    hide Tree, Avoids, Effective, Agree, Ahead;
    forall q, x, y | Ahead(b', q, x, y)
      ensures PairInOrder(b', rank, {s}, x, y)
    {
      AheadChildren(b', rank, q, x, y);
      if Avoids(b', rank, x, {s}) && Avoids(b', rank, y, {s}) {
        AttachedPair(b, rank, s, p, q, x, y);
      }
    }
  }

  lemma AvoidsSelf(b: Blocks, rank: map<nat, nat>, x: nat, s: nat)
    requires Tree(b, rank) && x in b.children && x in rank && Avoids(b, rank, x, {s})
    ensures x != s
  {
  }

  lemma AttachedPair(b: Blocks, rank: map<nat, nat>, s: nat, p: nat, q: nat, x: nat, y: nat)
    requires Tree(b, rank) && p in b.children && InOrder(b, rank, {p})
    requires Tree(Attached(b, s, p), rank) && Agree(Attached(b, s, p), b, {p}) && Ahead(Attached(b, s, p), q, x, y)
    requires x in b.children && x in rank && Avoids(Attached(b, s, p), rank, x, {s})
    requires y in b.children && y in rank && Avoids(Attached(b, s, p), rank, y, {s})
    ensures Effective(Attached(b, s, p), rank, x) >= Effective(Attached(b, s, p), rank, y)
  {
    var b' := Attached(b, s, p);
    hide Tree, Avoids, Effective, Agree, Ahead, Before;
    AvoidsSelf(b', rank, x, s);
    AvoidsSelf(b', rank, y, s);
    AvoidsParent(b', rank, x, s);
    AvoidsParent(b', rank, y, s);
    AheadIsBefore(b', q, x, y);
    AheadIsBefore(b, q, x, y);
    if q == p {
      BeforeAppend(b.children[p], s, x, y);
    }
    SamePriority(b', rank, b, rank, {p}, x);
    SamePriority(b', rank, b, rank, {p}, y);
    assert PairInOrder(b, rank, {p}, x, y);
  }

  /** In a sorted tree every exception is empty. */
  lemma SortedExcept(b: Blocks, rank: map<nat, nat>, ch: set<nat>)
    requires Tree(b, rank) && Sorted(b, rank)
    ensures InOrder(b, rank, ch)
  {
    hide Tree, Avoids, Effective, Ahead;
    forall p, x, y | Ahead(b, p, x, y)
      ensures PairInOrder(b, rank, ch, x, y)
    {
      AheadChildren(b, rank, p, x, y);
      AvoidsNothing(b, rank, x);
      AvoidsNothing(b, rank, y);
      assert PairInOrder(b, rank, {}, x, y);
    }
  }

  /** The order does not depend on which ranks show that the blocks form a tree. */
  lemma Reranked(b: Blocks, rank: map<nat, nat>, rank': map<nat, nat>)
    requires Tree(b, rank) && Tree(b, rank') && Sorted(b, rank)
    ensures Sorted(b, rank')
  {
    SelfAgree(b, rank);
    hide Tree, Avoids, Effective, Ahead, Agree;
    forall p, x, y | Ahead(b, p, x, y)
      ensures PairInOrder(b, rank', {}, x, y)
    {
      AheadChildren(b, rank, p, x, y);
      AheadChildren(b, rank', p, x, y);
      AvoidsNothing(b, rank, x);
      AvoidsNothing(b, rank, y);
      AvoidsNothing(b, rank', x);
      AvoidsNothing(b, rank', y);
      PairUnaffected(b, rank, b, rank', {}, {}, x, y);
    }
  }

  lemma SelfAgree(b: Blocks, rank: map<nat, nat>)
    requires Tree(b, rank)
    ensures Agree(b, b, {})
  {
    forall x | x in b.children
      ensures x in b.values
    {
      BlockAt(b, rank, x);
    }
  }

  //////////////////////////////////////////////////////////////////////////////
  // Detaching
  //////////////////////////////////////////////////////////////////////////////

  /** A block that has been taken out, with everything that was below it. */
  ghost predicate Gone(b: Blocks, c: Blocks, rank: map<nat, nat>, s: nat, gone: set<nat>, x: nat) {
    && x in b.children && x in rank && s in rank && rank[x] <= rank[s]
    && x in c.children && c.children[x] == []
    && x in b.parent && (x == s || b.parent[x] == s || b.parent[x] in gone)
    && forall k :: k in b.children[x] ==> k in gone
  }

  ghost predicate Surrounding(b: Blocks, c: Blocks, gone: set<nat>) {
    && c.children.Keys == b.children.Keys && c.values == b.values && c.parent == b.parent - gone
  }

  /** Some of what was below s has been taken out. */
  ghost predicate PartlyPruned(b: Blocks, c: Blocks, rank: map<nat, nat>, s: nat, gone: set<nat>) {
    && Surrounding(b, c, gone)
    && s !in gone && s in b.children
    && (forall x :: x in gone ==> Gone(b, c, rank, s, gone, x))
    && (forall x :: x in b.children && x !in gone && x != s ==> c.children[x] == b.children[x])
    && (forall k :: k in b.children[s] ==> k in gone || k in c.children[s])
    && (forall k :: k in c.children[s] ==> k in b.children[s])
  }

  /** Block s and everything below it have been taken out. */
  ghost predicate Pruned(b: Blocks, c: Blocks, rank: map<nat, nat>, s: nat, gone: set<nat>) {
    && Surrounding(b, c, gone)
    && s in gone && s in b.parent && b.parent[s] in b.children && b.parent[s] !in gone
    && (forall x :: x in gone ==> Gone(b, c, rank, s, gone, x))
    && (forall x :: x in b.children && x !in gone ==>
          c.children[x] == if x == b.parent[s] then Without(b.children[x], s) else b.children[x])
  }

  lemma PruneStart(b: Blocks, rank: map<nat, nat>, s: nat)
    requires s in b.children
    ensures PartlyPruned(b, b, rank, s, {})
  {
    assert b.parent == b.parent - {};
  }

  lemma PruneChild(b: Blocks, c: Blocks, d: Blocks, rank: map<nat, nat>, s: nat, gone: set<nat>, k: nat, g: set<nat>)
    requires PartlyPruned(b, c, rank, s, gone) && k in c.parent && c.parent[k] == s
    requires Pruned(c, d, rank, k, g)
    requires s in rank && k in rank && rank[k] < rank[s]
    ensures PartlyPruned(b, d, rank, s, gone + g)
  {
    assert s !in g;
    forall x | x in gone + g
      ensures Gone(b, d, rank, s, gone + g, x)
    {
      PruneChildAt(b, c, d, rank, s, gone, k, g, x);
    }
    hide Gone;
    assert d.parent == b.parent - (gone + g);
    forall x | x in b.children && x !in gone + g && x != s
      ensures d.children[x] == b.children[x]
    {
    }
  }

  lemma PruneChildAt(b: Blocks, c: Blocks, d: Blocks, rank: map<nat, nat>, s: nat, gone: set<nat>, k: nat, g: set<nat>, x: nat)
    requires PartlyPruned(b, c, rank, s, gone) && k in c.parent && c.parent[k] == s
    requires Pruned(c, d, rank, k, g)
    requires s in rank && k in rank && rank[k] < rank[s] && s !in g
    requires x in gone + g
    ensures Gone(b, d, rank, s, gone + g, x)
  {
    if x in gone {
      assert Gone(b, c, rank, s, gone, x);
    } else {
      assert Gone(c, d, rank, k, g, x);
      assert c.children[x] == b.children[x];
    }
  }

  /** The tree after list_del of s, once everything below it is gone. */
  function Unlinked(c: Blocks, s: nat): Blocks
    requires s in c.parent && c.parent[s] in c.children
  {
    var p := c.parent[s];
    c.(children := c.children[p := Without(c.children[p], s)], parent := c.parent - {s})
  }

  lemma PruneFinish(b: Blocks, c: Blocks, rank: map<nat, nat>, s: nat, gone: set<nat>)
    requires Tree(b, rank) && PartlyPruned(b, c, rank, s, gone) && c.children[s] == [] && s in b.parent
    ensures s in c.parent && c.parent[s] in c.children
    ensures Pruned(b, Unlinked(c, s), rank, s, gone + {s})
  {
    var p := b.parent[s];
    ChildAt(b, rank, p, s);
    PartlyGone(b, c, rank, s, gone, p);
    hide Tree, Gone;
    PruneFinishParts(b, c, rank, s, gone);
  }

  lemma PruneFinishParts(b: Blocks, c: Blocks, rank: map<nat, nat>, s: nat, gone: set<nat>)
    requires PartlyPruned(b, c, rank, s, gone) && c.children[s] == [] && s in b.parent && s in rank
    requires b.parent[s] in b.children && b.parent[s] !in gone && b.parent[s] != s
    ensures s in c.parent && c.parent[s] in c.children
    ensures Pruned(b, Unlinked(c, s), rank, s, gone + {s})
  {
    hide Gone, Without;
    var d := Unlinked(c, s);
    forall x | x in gone + {s}
      ensures Gone(b, d, rank, s, gone + {s}, x)
    {
      PruneFinishAt(b, c, rank, s, gone, x);
    }
    assert Surrounding(b, d, gone + {s}) by {
      assert d.parent == b.parent - (gone + {s});
    }
  }

  lemma PartlyGone(b: Blocks, c: Blocks, rank: map<nat, nat>, s: nat, gone: set<nat>, p: nat)
    requires PartlyPruned(b, c, rank, s, gone) && p in rank && s in rank && rank[s] < rank[p]
    ensures p !in gone
  {
    hide Surrounding;
    if p in gone {
      assert false;
    }
  }

  lemma PruneFinishAt(b: Blocks, c: Blocks, rank: map<nat, nat>, s: nat, gone: set<nat>, x: nat)
    requires PartlyPruned(b, c, rank, s, gone) && c.children[s] == [] && s in c.parent && c.parent[s] in c.children
    requires s in b.parent && b.parent[s] !in gone && b.parent[s] != s && c.parent[s] == b.parent[s] && s in rank
    requires x in gone + {s}
    ensures Gone(b, Unlinked(c, s), rank, s, gone + {s}, x)
  {
    hide Without;
    if x in gone {
      assert Gone(b, c, rank, s, gone, x);
    }
  }

  /** What remains is a tree. */
  lemma PrunedTree(b: Blocks, c: Blocks, rank: map<nat, nat>, s: nat, gone: set<nat>)
    requires Tree(b, rank) && Pruned(b, c, rank, s, gone)
    ensures Tree(c, rank)
  {
    hide ChildrenOk, Gone, Without;
    forall q | q in c.children
      ensures ChildrenOk(c, rank, q)
    {
      PrunedTreeAt(b, c, rank, s, gone, q);
    }
    forall k | k in c.parent
      ensures c.parent[k] in c.children && k in c.children[c.parent[k]]
    {
      PrunedParentAt(b, c, rank, s, gone, k);
    }
  }

  lemma PrunedTreeAt(b: Blocks, c: Blocks, rank: map<nat, nat>, s: nat, gone: set<nat>, q: nat)
    requires Tree(b, rank) && Pruned(b, c, rank, s, gone) && q in c.children
    ensures ChildrenOk(c, rank, q)
  {
    BlockAt(b, rank, q);
    DistinctChildren(b, rank, q);
    WithoutDistinct(b.children[q], s);
    hide Without, Distinct, Tree, ChildrenOk;
    if q in gone {
      PrunedGone(b, c, rank, s, gone, q);
      EmptyOk(b, c, rank, q);
    } else {
      PrunedKept(b, c, rank, s, gone, q);
      KeptOk(b, c, rank, s, gone, q);
    }
  }

  lemma PrunedGone(b: Blocks, c: Blocks, rank: map<nat, nat>, s: nat, gone: set<nat>, x: nat)
    requires Pruned(b, c, rank, s, gone) && x in gone
    ensures x in b.children && x in c.children && c.children[x] == [] && x in rank && c.values == b.values
    ensures x in b.parent && (x == s || b.parent[x] == s || b.parent[x] in gone)
    ensures forall k :: k in b.children[x] ==> k in gone
    ensures x !in c.parent
  {
    hide Without;
    assert Gone(b, c, rank, s, gone, x);
  }

  lemma PrunedKept(b: Blocks, c: Blocks, rank: map<nat, nat>, s: nat, gone: set<nat>, x: nat)
    requires Pruned(b, c, rank, s, gone) && x in b.children && x !in gone
    ensures s in gone && s in b.parent && x in c.children && c.values == b.values && c.children.Keys == b.children.Keys
    ensures c.children[x] == if x == b.parent[s] then Without(b.children[x], s) else b.children[x]
    ensures x in b.parent ==> x in c.parent && c.parent[x] == b.parent[x]
  {
    hide Without, Gone;
  }

  lemma EmptyOk(b: Blocks, c: Blocks, rank: map<nat, nat>, q: nat)
    requires ChildrenOk(b, rank, q) && q in c.children && c.children[q] == [] && c.values == b.values
    ensures ChildrenOk(c, rank, q)
  {
    NoChildren();
    hide Distinct;
  }

  /** The children of a block that stays, less the one taken out, stay. */
  lemma KeptOk(b: Blocks, c: Blocks, rank: map<nat, nat>, s: nat, gone: set<nat>, q: nat)
    requires Tree(b, rank) && Pruned(b, c, rank, s, gone) && q in b.children && q !in gone
    requires q in c.children && s in b.parent && c.values == b.values && ChildrenOk(b, rank, q)
    requires c.children[q] == if q == b.parent[s] then Without(b.children[q], s) else b.children[q]
    requires Distinct(Without(b.children[q], s))
    ensures ChildrenOk(c, rank, q)
  {
    hide Tree, Pruned, Distinct;
    forall k | k in c.children[q]
      ensures k in c.children && k in rank && rank[k] < rank[q] && k in c.parent && c.parent[k] == q
    {
      ChildAt(b, rank, q, k);
      PrunedSelf(b, c, rank, s, gone);
      if k in gone {
        PrunedGone(b, c, rank, s, gone, k);
        assert false;
      }
      PrunedKept(b, c, rank, s, gone, k);
    }
  }

  lemma NoChildren()
    ensures Distinct([])
  {
  }

  lemma PrunedParentAt(b: Blocks, c: Blocks, rank: map<nat, nat>, s: nat, gone: set<nat>, k: nat)
    requires Tree(b, rank) && Pruned(b, c, rank, s, gone) && k in c.parent
    ensures c.parent[k] in c.children && k in c.children[c.parent[k]]
  {
    var q := b.parent[k];
    assert k in b.children[q] && k !in gone;
    hide Tree, Pruned;
    if q in gone {
      PrunedGone(b, c, rank, s, gone, q);
      assert false;
    }
    PrunedKept(b, c, rank, s, gone, q);
    PrunedSelf(b, c, rank, s, gone);
  }

  lemma PrunedSelf(b: Blocks, c: Blocks, rank: map<nat, nat>, s: nat, gone: set<nat>)
    requires Pruned(b, c, rank, s, gone)
    ensures s in gone && c.parent == b.parent - gone
  {
  }

  /** A block that is still in the tree contains nothing that is gone. */
  lemma {:induction false} AvoidsGone(c: Blocks, rank: map<nat, nat>, gone: set<nat>, p: nat, x: nat)
    requires Tree(c, rank) && x in c.children && x in rank && x !in gone && Avoids(c, rank, x, {p})
    requires forall y :: y in gone ==> y !in c.parent
    ensures Avoids(c, rank, x, gone + {p})
    decreases rank[x]
  {
    hide Tree;
    forall k | k in c.children[x]
      ensures k in c.children && k in rank && Avoids(c, rank, k, gone + {p})
    {
      ChildAt(c, rank, x, k);
      AvoidsGone(c, rank, gone, p, k);
    }
  }

  /** Detaching can only disturb the former parent and what contains it. */
  lemma PruneDisturbs(b: Blocks, c: Blocks, rank: map<nat, nat>, s: nat, gone: set<nat>)
    requires Tree(b, rank) && Sorted(b, rank) && Pruned(b, c, rank, s, gone)
    ensures Tree(c, rank) && InOrder(c, rank, {b.parent[s]})
  {
    PrunedTree(b, c, rank, s, gone);
    PrunedAgree(b, c, rank, s, gone);
    var p := b.parent[s];
    hide Tree, Avoids, Effective, Agree, Ahead, Pruned;
    forall q, x, y | Ahead(c, q, x, y)
      ensures PairInOrder(c, rank, {p}, x, y)
    {
      AheadChildren(c, rank, q, x, y);
      if Avoids(c, rank, x, {p}) && Avoids(c, rank, y, {p}) {
        PrunedAhead(b, c, rank, s, gone, q, x, y);
        AvoidsGone(c, rank, gone, p, x);
        AvoidsGone(c, rank, gone, p, y);
        AheadChildren(b, rank, q, x, y);
        AvoidsNothing(b, rank, x);
        AvoidsNothing(b, rank, y);
        PairUnaffected(b, rank, c, rank, gone + {p}, {}, x, y);
      }
    }
  }

  lemma PrunedAgree(b: Blocks, c: Blocks, rank: map<nat, nat>, s: nat, gone: set<nat>)
    requires Tree(b, rank) && Pruned(b, c, rank, s, gone)
    ensures Agree(c, b, gone + {b.parent[s]})
    ensures forall y :: y in gone ==> y !in c.parent
  {
    hide Gone, Without, ChildrenOk;
    forall x | x in c.children
      ensures x in b.values
    {
      BlockAt(b, rank, x);
    }
  }

  lemma PrunedAhead(b: Blocks, c: Blocks, rank: map<nat, nat>, s: nat, gone: set<nat>, q: nat, x: nat, y: nat)
    requires Tree(b, rank) && Tree(c, rank) && Pruned(b, c, rank, s, gone) && Ahead(c, q, x, y)
    ensures Ahead(b, q, x, y) && x !in gone && y !in gone
  {
    hide Tree, Ahead, Gone, Before, Without;
    AheadChildren(c, rank, q, x, y);
    AheadIsBefore(c, q, x, y);
    AheadIsBefore(b, q, x, y);
    assert x != s && y != s;
    if q in gone {
      PrunedGone(b, c, rank, s, gone, q);
      NotBefore(x, y);
      assert false;
    }
    if q == b.parent[s] {
      WithoutKeepsOrder(b.children[q], s, x, y);
    }
  }

  lemma NotBefore(x: nat, y: nat)
    ensures !Before([], x, y)
  {
  }
}
