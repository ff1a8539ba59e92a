/** The tree of settings blocks as settings.c sees it: who contains whom, where a setting is found first,
    and what it means for siblings to be in order of priority. */
module SettingsTree {
  import opened Options
  import opened Lists

  /** The setting that determines a block's place among its siblings. */
  const PRIORITY: nat := 0

  /** The blocks: their children in order, their parents, and the values stored in each. */
  datatype Blocks = Blocks(children: map<nat, seq<nat>>, parent: map<nat, nat>, values: map<nat, map<nat, int>>)

  //////////////////////////////////////////////////////////////////////////////
  // Well-formed trees
  //////////////////////////////////////////////////////////////////////////////

  ghost predicate ChildrenOk(b: Blocks, rank: map<nat, nat>, p: nat) {
    && p in b.children && p in rank && p in b.values
    && Distinct(b.children[p])
    && forall c :: c in b.children[p] ==> c in b.children && c in rank && rank[c] < rank[p] && c in b.parent && b.parent[c] == p
  }

  /** A forest: parent and child lists agree, and the rank falls from parent to child. */
  ghost predicate Tree(b: Blocks, rank: map<nat, nat>) {
    && (forall p :: p in b.children ==> ChildrenOk(b, rank, p))
    && (forall c :: c in b.parent ==> b.parent[c] in b.children && c in b.children[b.parent[c]])
  }

  lemma ChildAt(b: Blocks, rank: map<nat, nat>, p: nat, c: nat)
    requires Tree(b, rank) && p in b.children && c in b.children[p]
    ensures c in b.children && c in rank && p in rank && rank[c] < rank[p] && c in b.parent && b.parent[c] == p && c in b.values
  {
    assert ChildrenOk(b, rank, p);
    assert ChildrenOk(b, rank, c);
  }

  lemma BlockAt(b: Blocks, rank: map<nat, nat>, p: nat)
    requires Tree(b, rank) && p in b.children
    ensures p in rank && p in b.values && ChildrenOk(b, rank, p)
  {
  }

  //////////////////////////////////////////////////////////////////////////////
  // Searching
  //////////////////////////////////////////////////////////////////////////////

  /** The children of one block, or the rest of them. */
  ghost predicate Listed(b: Blocks, rank: map<nat, nat>, cs: seq<nat>, bound: nat) {
    forall c :: c in cs ==> c in b.children && c in rank && rank[c] < bound
  }

  lemma ListedChildren(b: Blocks, rank: map<nat, nat>, p: nat)
    requires Tree(b, rank) && p in b.children
    ensures p in rank && p in b.values && Listed(b, rank, b.children[p], rank[p])
  {
    assert ChildrenOk(b, rank, p);
  }

  /** fetch_setting: this block first, then each child in turn; the result is the block that has the value. */
  ghost function Fetch(b: Blocks, rank: map<nat, nat>, s: nat, key: nat): (r: Option<nat>)
    requires Tree(b, rank) && s in b.children && s in rank
    ensures r.Some? ==> r.value in b.values && key in b.values[r.value]
    decreases rank[s], 1, 0
  {
    ListedChildren(b, rank, s);
    if key in b.values[s] then Some(s) else FetchIn(b, rank, b.children[s], key, rank[s])
  }

  ghost function FetchIn(b: Blocks, rank: map<nat, nat>, cs: seq<nat>, key: nat, bound: nat): (r: Option<nat>)
    requires Tree(b, rank) && Listed(b, rank, cs, bound)
    ensures r.Some? ==> r.value in b.values && key in b.values[r.value]
    decreases bound, 0, |cs|
  {
    if cs == [] then None
    else
      var first := Fetch(b, rank, cs[0], key);
      if first.Some? then first else FetchIn(b, rank, cs[1..], key, bound)
  }

  /** A block and everything below it, in preorder. */
  ghost function Preorder(b: Blocks, rank: map<nat, nat>, s: nat): seq<nat>
    requires Tree(b, rank) && s in b.children && s in rank
    decreases rank[s], 1, 0
  {
    ListedChildren(b, rank, s);
    [s] + PreorderOf(b, rank, b.children[s], rank[s])
  }

  ghost function PreorderOf(b: Blocks, rank: map<nat, nat>, cs: seq<nat>, bound: nat): seq<nat>
    requires Tree(b, rank) && Listed(b, rank, cs, bound)
    decreases bound, 0, |cs|
  {
    if cs == [] then [] else Preorder(b, rank, cs[0]) + PreorderOf(b, rank, cs[1..], bound)
  }

  /** The first block of a sequence that has a value. */
  ghost function FirstHolder(b: Blocks, order: seq<nat>, key: nat): Option<nat> {
    if order == [] then None
    else if order[0] in b.values && key in b.values[order[0]] then Some(order[0])
    else FirstHolder(b, order[1..], key)
  }

  lemma {:induction false} FirstHolderAppend(b: Blocks, xs: seq<nat>, ys: seq<nat>, key: nat)
    ensures FirstHolder(b, xs + ys, key)
         == if FirstHolder(b, xs, key).Some? then FirstHolder(b, xs, key) else FirstHolder(b, ys, key)
  {
    if xs == [] {
      assert xs + ys == ys;
    } else {
      assert (xs + ys)[1..] == xs[1..] + ys;
      FirstHolderAppend(b, xs[1..], ys, key);
    }
  }

  /** A fetch finds the first block in preorder that has the setting. */
  lemma {:induction false} FetchIsFirst(b: Blocks, rank: map<nat, nat>, s: nat, key: nat)
    requires Tree(b, rank) && s in b.children && s in rank
    ensures Fetch(b, rank, s, key) == FirstHolder(b, Preorder(b, rank, s), key)
    decreases rank[s], 1, 0
  {
    hide Tree, Listed;
    ListedChildren(b, rank, s);
    var rest := PreorderOf(b, rank, b.children[s], rank[s]);
    assert ([s] + rest)[1..] == rest;
    FetchInIsFirst(b, rank, b.children[s], key, rank[s]);
  }

  lemma {:induction false} FetchInIsFirst(b: Blocks, rank: map<nat, nat>, cs: seq<nat>, key: nat, bound: nat)
    requires Tree(b, rank) && Listed(b, rank, cs, bound)
    ensures FetchIn(b, rank, cs, key, bound) == FirstHolder(b, PreorderOf(b, rank, cs, bound), key)
    decreases bound, 0, |cs|
  {
    hide Tree;
    if cs != [] {
      FetchIsFirst(b, rank, cs[0], key);
      FetchInIsFirst(b, rank, cs[1..], key, bound);
      FirstHolderAppend(b, Preorder(b, rank, cs[0]), PreorderOf(b, rank, cs[1..], bound), key);
    }
  }

  //////////////////////////////////////////////////////////////////////////////
  // What a change below leaves alone
  //////////////////////////////////////////////////////////////////////////////

  /** Neither the block nor anything below it is in the set. */
  ghost predicate Avoids(b: Blocks, rank: map<nat, nat>, s: nat, ch: set<nat>)
    requires Tree(b, rank) && s in b.children && s in rank
    decreases rank[s]
  {
    ListedChildren(b, rank, s);
    s !in ch && forall c :: c in b.children[s] ==> Avoids(b, rank, c, ch)
  }

  /** The two forests differ at most in what the blocks of the set have for children and values. */
  ghost predicate Agree(b: Blocks, b': Blocks, ch: set<nat>) {
    forall x :: x in b.children && x !in ch ==>
      && x in b'.children && b'.children[x] == b.children[x]
      && x in b.values && x in b'.values && b'.values[x] == b.values[x]
  }

  lemma {:induction false} Frame(b: Blocks, rank: map<nat, nat>, b': Blocks, rank': map<nat, nat>, ch: set<nat>, s: nat, key: nat)
    requires Tree(b, rank) && Tree(b', rank') && Agree(b, b', ch)
    requires s in b.children && s in rank && Avoids(b, rank, s, ch)
    ensures s in b'.children && s in rank'
    ensures Fetch(b', rank', s, key) == Fetch(b, rank, s, key)
    ensures Avoids(b', rank', s, ch)
    decreases rank[s], 1, 0
  {
    AgreeAt(b, b', ch, s);
    BlockAt(b', rank', s);
    ListedChildren(b, rank, s);
    ListedChildren(b', rank', s);
    hide Tree, Agree;
    FrameIn(b, rank, b', rank', ch, b.children[s], key, rank[s], rank'[s]);
  }

  lemma AgreeAt(b: Blocks, b': Blocks, ch: set<nat>, x: nat)
    requires Agree(b, b', ch) && x in b.children && x !in ch
    ensures x in b'.children && b'.children[x] == b.children[x]
    ensures x in b.values && x in b'.values && b'.values[x] == b.values[x]
  {
  }

  lemma {:induction false} FrameIn(b: Blocks, rank: map<nat, nat>, b': Blocks, rank': map<nat, nat>, ch: set<nat>,
                                   cs: seq<nat>, key: nat, bound: nat, bound': nat)
    requires Tree(b, rank) && Tree(b', rank') && Agree(b, b', ch)
    requires Listed(b, rank, cs, bound) && Listed(b', rank', cs, bound')
    requires forall c :: c in cs ==> Avoids(b, rank, c, ch)
    ensures FetchIn(b', rank', cs, key, bound') == FetchIn(b, rank, cs, key, bound)
    ensures forall c :: c in cs ==> Avoids(b', rank', c, ch)
    decreases bound, 0, |cs|
  {
    hide Tree, Agree, Avoids;
    if cs != [] {
      Frame(b, rank, b', rank', ch, cs[0], key);
      FrameIn(b, rank, b', rank', ch, cs[1..], key, bound, bound');
      forall c | c in cs
        ensures Avoids(b', rank', c, ch)
      {
        if c != cs[0] {
          assert c in cs[1..];
        }
      }
    }
  }

  lemma {:induction false} AvoidsHigher(b: Blocks, rank: map<nat, nat>, s: nat, t: nat)
    requires Tree(b, rank) && s in b.children && s in rank && t in rank && rank[s] < rank[t]
    ensures Avoids(b, rank, s, {t})
    decreases rank[s]
  {
    hide Tree;
    forall c | c in b.children[s]
      ensures c in b.children && c in rank && Avoids(b, rank, c, {t})
    {
      ChildAt(b, rank, s, c);
      AvoidsHigher(b, rank, c, t);
    }
  }

  /** Whatever contains a block, other than the block itself, contains its parent. */
  lemma {:induction false} AvoidsChild(b: Blocks, rank: map<nat, nat>, x: nat, s: nat)
    requires Tree(b, rank) && x in b.children && x in rank && s in b.parent && x != s
    requires Avoids(b, rank, x, {b.parent[s]})
    ensures Avoids(b, rank, x, {s})
    decreases rank[x]
  {
    hide Tree;
    forall c | c in b.children[x]
      ensures c in b.children && c in rank && Avoids(b, rank, c, {s})
    {
      ChildAt(b, rank, x, c);
      AvoidsChild(b, rank, c, s);
    }
  }

  /** Nothing but a block without parent contains it. */
  lemma {:induction false} AvoidsRoot(b: Blocks, rank: map<nat, nat>, x: nat, s: nat)
    requires Tree(b, rank) && x in b.children && x in rank && s !in b.parent && x != s
    ensures Avoids(b, rank, x, {s})
    decreases rank[x]
  {
    hide Tree;
    forall c | c in b.children[x]
      ensures c in b.children && c in rank && Avoids(b, rank, c, {s})
    {
      ChildAt(b, rank, x, c);
      AvoidsRoot(b, rank, c, s);
    }
  }

  //////////////////////////////////////////////////////////////////////////////
  // Order of priority
  //////////////////////////////////////////////////////////////////////////////

  /** The effective priority: the first one found in the block's subtree, or zero. */
  ghost function Effective(b: Blocks, rank: map<nat, nat>, s: nat): int
    requires Tree(b, rank) && s in b.children && s in rank
  {
    var o := Fetch(b, rank, s, PRIORITY);
    if o.Some? then b.values[o.value][PRIORITY] else 0
  }

  /** Effective priorities never rise along a list of siblings, not counting those that contain a block of
      the set. */
  ghost predicate InOrder(b: Blocks, rank: map<nat, nat>, ch: set<nat>)
    requires Tree(b, rank)
  {
    forall p, x, y :: Ahead(b, p, x, y) ==> PairInOrder(b, rank, ch, x, y)
  }

  /** x comes before y among the children of p. */
  ghost predicate Ahead(b: Blocks, p: nat, x: nat, y: nat) {
    p in b.children && exists i, j :: 0 <= i < j < |b.children[p]| && b.children[p][i] == x && b.children[p][j] == y
  }

  ghost predicate PairInOrder(b: Blocks, rank: map<nat, nat>, ch: set<nat>, x: nat, y: nat)
    requires Tree(b, rank)
  {
    && x in b.children && x in rank && y in b.children && y in rank
    && (Avoids(b, rank, x, ch) && Avoids(b, rank, y, ch) ==> Effective(b, rank, x) >= Effective(b, rank, y))
  }

  lemma AheadChildren(b: Blocks, rank: map<nat, nat>, p: nat, x: nat, y: nat)
    requires Tree(b, rank) && Ahead(b, p, x, y)
    ensures p in b.children && x in b.children[p] && y in b.children[p]
    ensures p in rank && x in b.children && x in rank && rank[x] < rank[p] && y in b.children && y in rank && rank[y] < rank[p]
    ensures x in b.parent && b.parent[x] == p && y in b.parent && b.parent[y] == p
  {
    ChildAt(b, rank, p, x);
    ChildAt(b, rank, p, y);
  }

  /** All siblings are sorted by descending effective priority. */
  ghost predicate Sorted(b: Blocks, rank: map<nat, nat>)
    requires Tree(b, rank)
  {
    InOrder(b, rank, {})
  }

  lemma {:induction false} AvoidsNothing(b: Blocks, rank: map<nat, nat>, s: nat)
    requires Tree(b, rank) && s in b.children && s in rank
    ensures Avoids(b, rank, s, {})
    decreases rank[s]
  {
    hide Tree;
    forall c | c in b.children[s]
      ensures c in b.children && c in rank && Avoids(b, rank, c, {})
    {
      ChildAt(b, rank, s, c);
      AvoidsNothing(b, rank, c);
    }
  }

  /** At the top there is nothing left to make an exception for. */
  lemma SortedAtRoot(b: Blocks, rank: map<nat, nat>, s: nat)
    requires Tree(b, rank) && s !in b.parent && InOrder(b, rank, {s})
    ensures Sorted(b, rank)
  {
    hide Tree, Avoids, Effective, Ahead;
    forall p, x, y | Ahead(b, p, x, y)
      ensures PairInOrder(b, rank, {}, x, y)
    {
      AheadChildren(b, rank, p, x, y);
      AvoidsRoot(b, rank, x, s);
      AvoidsRoot(b, rank, y, s);
      assert PairInOrder(b, rank, {s}, x, y);
    }
  }
}
