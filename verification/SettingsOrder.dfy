/** How each change to the settings tree disturbs the order of priority, and how reinserting a block among its
    siblings restores it. */
module SettingsOrder {
  import opened Options
  import opened Lists
  import opened SettingsTree

  //////////////////////////////////////////////////////////////////////////////
  // Lists of siblings
  //////////////////////////////////////////////////////////////////////////////

  /** x precedes y in the list. */
  ghost predicate Before(cs: seq<nat>, x: nat, y: nat) {
    exists i, j :: 0 <= i < j < |cs| && cs[i] == x && cs[j] == y
  }

  lemma BeforeHead(cs: seq<nat>, x: nat, y: nat)
    requires cs != []
    ensures Before(cs, x, y) <==> Before(cs[1..], x, y) || (cs[0] == x && y in cs[1..])
  {
    if Before(cs, x, y) {
      var i, j :| 0 <= i < j < |cs| && cs[i] == x && cs[j] == y;
      assert cs[1..][j - 1] == y;
      if i > 0 {
        assert cs[1..][i - 1] == x;
      }
    }
    if Before(cs[1..], x, y) {
      var i, j :| 0 <= i < j < |cs[1..]| && cs[1..][i] == x && cs[1..][j] == y;
      assert cs[i + 1] == x && cs[j + 1] == y;
    }
    if cs[0] == x && y in cs[1..] {
      var j :| 0 <= j < |cs[1..]| && cs[1..][j] == y;
      assert cs[j + 1] == y;
    }
  }

  lemma {:induction false} WithoutKeepsOrder(cs: seq<nat>, s: nat, x: nat, y: nat)
    requires x != s && y != s
    ensures Before(Without(cs, s), x, y) <==> Before(cs, x, y)
  {
    hide Before;
    if cs != [] {
      WithoutKeepsOrder(cs[1..], s, x, y);
      BeforeHead(cs, x, y);
      if cs[0] != s {
        var r := [cs[0]] + Without(cs[1..], s);
        assert r[1..] == Without(cs[1..], s);
        BeforeHead(r, x, y);
      }
    }
  }

  /** list_add_tail in front of position k. */
  function InsertAt(cs: seq<nat>, k: nat, s: nat): seq<nat>
    requires k <= |cs|
  {
    cs[..k] + [s] + cs[k..]
  }

  lemma InsertOrder(cs: seq<nat>, k: nat, s: nat, x: nat, y: nat)
    requires k <= |cs| && s !in cs && Before(InsertAt(cs, k, s), x, y)
    ensures x == s ==> y in cs[k..]
    ensures y == s ==> x in cs[..k]
    ensures x != s && y != s ==> Before(cs, x, y)
  {
    var r := InsertAt(cs, k, s);
    var i, j :| 0 <= i < j < |r| && r[i] == x && r[j] == y;
    if x != s && y != s {
      assert cs[if i < k then i else i - 1] == x;
      assert cs[if j < k then j else j - 1] == y;
    }
  }

  lemma InsertMembers(cs: seq<nat>, k: nat, s: nat)
    requires k <= |cs| && Distinct(cs) && s !in cs
    ensures Distinct(InsertAt(cs, k, s))
    ensures forall c :: c in InsertAt(cs, k, s) <==> c in cs || c == s
  {
    var r := InsertAt(cs, k, s);
    assert forall c :: c in cs ==> c in cs[..k] || c in cs[k..];
  }

  /** Where the reinsertion loop stops: at the first sibling of lower priority, or of lower order key. */
  function Position(prio: seq<int>, order: seq<int>, e: int, o: int): (k: nat)
    requires |prio| == |order|
    ensures k <= |prio|
    ensures forall j :: 0 <= j < k ==> prio[j] >= e && order[j] >= o
    ensures k < |prio| ==> prio[k] < e || order[k] < o
  {
    if prio == [] || e > prio[0] || o > order[0] then 0 else 1 + Position(prio[1..], order[1..], e, o)
  }

  ghost predicate Descending(prio: seq<int>) {
    forall i, j :: 0 <= i < j < |prio| ==> prio[i] >= prio[j]
  }

  /** Reinsertion leaves the siblings in order of priority exactly when no sibling with a lower order key has
      a higher priority. */
  lemma InsertDescending(prio: seq<int>, order: seq<int>, e: int, o: int)
    requires |prio| == |order| && Descending(prio)
    ensures var k := Position(prio, order, e, o);
      Descending(prio[..k] + [e] + prio[k..]) <==> forall j :: 0 <= j < |prio| && order[j] < o ==> prio[j] <= e
  {
    var k := Position(prio, order, e, o);
    var r := prio[..k] + [e] + prio[k..];
    if Descending(r) {
      forall j | 0 <= j < |prio| && order[j] < o
        ensures prio[j] <= e
      {
        assert r[k] == e && r[j + 1] == prio[j];
      }
    }
    if forall j :: 0 <= j < |prio| && order[j] < o ==> prio[j] <= e {
      forall i, j | 0 <= i < j < |r|
        ensures r[i] >= r[j]
      {
      }
    }
  }

  /** A block of priority 3 and order key 1 goes ahead of a sibling of priority 5 and order key 0. */
  lemma OrderKeyExample()
    ensures Descending([5]) && Position([5], [0], 3, 1) == 0
    ensures !Descending([3, 5])
  {
    assert [3, 5][0] < [3, 5][1];
  }

  //////////////////////////////////////////////////////////////////////////////
  // Changes to the tree
  //////////////////////////////////////////////////////////////////////////////

  lemma AheadIsBefore(b: Blocks, p: nat, x: nat, y: nat)
    ensures Ahead(b, p, x, y) <==> p in b.children && Before(b.children[p], x, y)
  {
  }

  /** Between two forests that agree outside a set, a block that avoids the set keeps its priority. */
  lemma SamePriority(b: Blocks, rank: map<nat, nat>, b': Blocks, rank': map<nat, nat>, ch: set<nat>, x: nat)
    requires Tree(b, rank) && Tree(b', rank') && Agree(b, b', ch)
    requires x in b.children && x in rank && Avoids(b, rank, x, ch)
    ensures x in b'.children && x in rank' && Avoids(b', rank', x, ch)
    ensures Effective(b', rank', x) == Effective(b, rank, x)
  {
    hide Tree, Avoids;
    Frame(b, rank, b', rank', ch, x, PRIORITY);
    FetchedAvoids(b, rank, x, PRIORITY, ch);
    var o := Fetch(b, rank, x, PRIORITY);
    if o.Some? {
      AgreeAt(b, b', ch, o.value);
    }
  }

  /** What is found below a block that avoids the set is not in the set. */
  lemma {:induction false} FetchedAvoids(b: Blocks, rank: map<nat, nat>, s: nat, key: nat, ch: set<nat>)
    requires Tree(b, rank) && s in b.children && s in rank && Avoids(b, rank, s, ch)
    ensures var r := Fetch(b, rank, s, key); r.Some? ==> r.value !in ch && r.value in b.children
    decreases rank[s], 1, 0
  {
    ListedChildren(b, rank, s);
    hide Tree;
    FetchedInAvoids(b, rank, b.children[s], key, rank[s], ch);
  }

  lemma {:induction false} FetchedInAvoids(b: Blocks, rank: map<nat, nat>, cs: seq<nat>, key: nat, bound: nat, ch: set<nat>)
    requires Tree(b, rank) && Listed(b, rank, cs, bound)
    requires forall c :: c in cs ==> Avoids(b, rank, c, ch)
    ensures var r := FetchIn(b, rank, cs, key, bound); r.Some? ==> r.value !in ch && r.value in b.children
    decreases bound, 0, |cs|
  {
    hide Tree, Avoids;
    if cs != [] {
      FetchedAvoids(b, rank, cs[0], key, ch);
      FetchedInAvoids(b, rank, cs[1..], key, bound, ch);
    }
  }

  /** The order of two blocks is not affected by a change to blocks that they avoid. */
  lemma PairUnaffected(b: Blocks, rank: map<nat, nat>, b': Blocks, rank': map<nat, nat>, ch: set<nat>, ex: set<nat>,
                       x: nat, y: nat)
    requires Tree(b, rank) && Tree(b', rank') && Agree(b', b, ch) && PairInOrder(b, rank, ex, x, y)
    requires x in b'.children && x in rank' && Avoids(b', rank', x, ch)
    requires y in b'.children && y in rank' && Avoids(b', rank', y, ch)
    requires Avoids(b, rank, x, ex) && Avoids(b, rank, y, ex)
    ensures Effective(b', rank', x) >= Effective(b', rank', y)
  {
    hide Tree, Avoids, Effective, Agree;
    SamePriority(b', rank', b, rank, ch, x);
    SamePriority(b', rank', b, rank, ch, y);
  }

  /** Storing a value can only disturb the block and what contains it. */
  lemma StoreDisturbs(b: Blocks, b': Blocks, rank: map<nat, nat>, s: nat)
    requires Tree(b, rank) && Tree(b', rank) && b'.children == b.children
    requires Agree(b', b, {s}) && Sorted(b, rank)
    ensures InOrder(b', rank, {s})
  {
    hide Tree, Avoids, Effective, Agree, Ahead;
    forall p, x, y | Ahead(b', p, x, y)
      ensures PairInOrder(b', rank, {s}, x, y)
    {
      AheadChildren(b', rank, p, x, y);
      AheadIsBefore(b', p, x, y);
      AheadIsBefore(b, p, x, y);
      if Avoids(b', rank, x, {s}) && Avoids(b', rank, y, {s}) {
        AvoidsNothing(b, rank, x);
        AvoidsNothing(b, rank, y);
        PairUnaffected(b, rank, b', rank, {s}, {}, x, y);
      }
    }
  }

  //////////////////////////////////////////////////////////////////////////////
  // Reinserting a block among its siblings
  //////////////////////////////////////////////////////////////////////////////

  /** The tree with block s moved to position k among its siblings. */
  function Moved(b: Blocks, s: nat, k: nat): Blocks
    requires s in b.parent && b.parent[s] in b.children && k <= |Without(b.children[b.parent[s]], s)|
  {
    var p := b.parent[s];
    b.(children := b.children[p := InsertAt(Without(b.children[p], s), k, s)])
  }

  lemma MovedTree(b: Blocks, rank: map<nat, nat>, s: nat, k: nat)
    requires Tree(b, rank) && s in b.parent && b.parent[s] in b.children
    requires k <= |Without(b.children[b.parent[s]], s)|
    ensures Tree(Moved(b, s, k), rank)
    ensures Agree(b, Moved(b, s, k), {b.parent[s]}) && Agree(Moved(b, s, k), b, {b.parent[s]})
  {
    var p := b.parent[s];
    hide InsertAt, Distinct, ChildrenOk;
    BlockAt(b, rank, p);
    DistinctChildren(b, rank, p);
    WithoutDistinct(b.children[p], s);
    InsertMembers(Without(b.children[p], s), k, s);
    Relisted(b, rank, p, InsertAt(Without(b.children[p], s), k, s));
  }

  lemma DistinctChildren(b: Blocks, rank: map<nat, nat>, p: nat)
    requires ChildrenOk(b, rank, p)
    ensures p in b.children && Distinct(b.children[p])
  {
  }

  /** Listing the same children in another order keeps a tree a tree. */
  lemma Relisted(b: Blocks, rank: map<nat, nat>, p: nat, cs: seq<nat>)
    requires Tree(b, rank) && p in b.children && Distinct(cs)
    requires forall c :: c in cs <==> c in b.children[p]
    ensures var b' := b.(children := b.children[p := cs]); Tree(b', rank) && Agree(b, b', {p}) && Agree(b', b, {p})
  {
    var b' := b.(children := b.children[p := cs]);
    hide ChildrenOk, Distinct;
    forall q | q in b'.children
      ensures ChildrenOk(b', rank, q)
    {
      RelistedAt(b, rank, p, cs, q);
    }
    forall c | c in b'.parent
      ensures b'.parent[c] in b'.children && c in b'.children[b'.parent[c]]
    {
    }
    forall q | q in b.children
      ensures q in b.values
    {
      BlockAt(b, rank, q);
    }
  }

  lemma RelistedAt(b: Blocks, rank: map<nat, nat>, p: nat, cs: seq<nat>, q: nat)
    requires Tree(b, rank) && p in b.children && Distinct(cs) && q in b.children
    requires forall c :: c in cs <==> c in b.children[p]
    ensures ChildrenOk(b.(children := b.children[p := cs]), rank, q)
  {
    BlockAt(b, rank, q);
    hide Tree, Distinct;
  }

  /** The siblings ahead of position k have at least the priority of s, those behind at most. */
  ghost predicate RightPlace(b: Blocks, rank: map<nat, nat>, s: nat, rest: seq<nat>, k: nat)
    requires Tree(b, rank)
  {
    && s in b.children && s in rank && k <= |rest|
    && (forall x :: x in rest[..k] ==> x in b.children && x in rank && Effective(b, rank, x) >= Effective(b, rank, s))
    && (forall y :: y in rest[k..] ==> y in b.children && y in rank && Effective(b, rank, s) >= Effective(b, rank, y))
  }

  /** Moving a block to its right place leaves only its parent, and what contains that, to be considered. */
  lemma MoveClimbs(b: Blocks, rank: map<nat, nat>, s: nat, k: nat)
    requires Tree(b, rank) && s in b.parent && b.parent[s] in b.children
    requires InOrder(b, rank, {s})
    requires RightPlace(b, rank, s, Without(b.children[b.parent[s]], s), k)
    ensures Tree(Moved(b, s, k), rank) && InOrder(Moved(b, s, k), rank, {b.parent[s]})
  {
    MovedTree(b, rank, s, k);
    var p, b' := b.parent[s], Moved(b, s, k);
    hide Tree, Avoids, Effective, Agree, Ahead, Without, InsertAt;
    forall q, x, y | Ahead(b', q, x, y)
      ensures PairInOrder(b', rank, {p}, x, y)
    {
      AheadChildren(b', rank, q, x, y);
      if Avoids(b', rank, x, {p}) && Avoids(b', rank, y, {p}) {
        MovedPair(b, rank, s, k, q, x, y);
      }
    }
  }

  lemma MovedPair(b: Blocks, rank: map<nat, nat>, s: nat, k: nat, q: nat, x: nat, y: nat)
    requires Tree(b, rank) && s in b.parent && b.parent[s] in b.children
    requires InOrder(b, rank, {s})
    requires RightPlace(b, rank, s, Without(b.children[b.parent[s]], s), k)
    requires Tree(Moved(b, s, k), rank) && Ahead(Moved(b, s, k), q, x, y)
    requires x in Moved(b, s, k).children && x in rank && Avoids(Moved(b, s, k), rank, x, {b.parent[s]})
    requires y in Moved(b, s, k).children && y in rank && Avoids(Moved(b, s, k), rank, y, {b.parent[s]})
    ensures Effective(Moved(b, s, k), rank, x) >= Effective(Moved(b, s, k), rank, y)
  {
    MovedTree(b, rank, s, k);
    var p, b' := b.parent[s], Moved(b, s, k);
    var rest := Without(b.children[p], s);
    hide Tree, Avoids, Effective, Agree, Ahead, Before, InsertAt, Without;
    AheadChildren(b', rank, q, x, y);
    AheadIsBefore(b', q, x, y);
    AheadIsBefore(b, q, x, y);
    SamePriority(b', rank, b, rank, {p}, x);
    SamePriority(b', rank, b, rank, {p}, y);
    if q == p {
      InsertOrder(rest, k, s, x, y);
      if x != s && y != s {
        WithoutKeepsOrder(b.children[p], s, x, y);
      }
    }
    if x != s && y != s {
      AvoidsChild(b, rank, x, s);
      AvoidsChild(b, rank, y, s);
      assert PairInOrder(b, rank, {s}, x, y);
    }
  }
}
