/** Pass-through interfaces: where an operation ends up when objects hand it on, when the search for its handler
    ends, and what plugging does to that. */
module PassThrough {
  import opened Options

  /** The null interface. */
  const NULL: nat := 0

  /** What a close handler may do: shut down or restart interfaces of its own object. */
  datatype Action = ShutdownAll(intfs: seq<nat>) | RestartAll(intfs: seq<nat>)

  /** An interface descriptor, as far as closing is concerned. */
  datatype Descriptor = Descriptor(close: Option<seq<Action>>, passthru: Option<nat>)

  const NULL_DESC := Descriptor(Some([]), None)

  /** The descriptor in force: a nullified interface ignores everything. */
  function Current(original: map<nat, Descriptor>, nulled: set<nat>, d: nat): Descriptor {
    if d in nulled || d !in original then NULL_DESC else original[d]
  }

  /** The search goes no further: there is a handler, or nothing to pass the operation on to. */
  predicate Stops(original: map<nat, Descriptor>, nulled: set<nat>, d: nat) {
    Current(original, nulled, d).close.Some? || Current(original, nulled, d).passthru.None?
  }

  function Through(original: map<nat, Descriptor>, nulled: set<nat>, d: nat): nat
    requires !Stops(original, nulled, d)
  {
    Current(original, nulled, d).passthru.value
  }

  /** The search for a handler that starts at destination d is over after at most n hops. */
  ghost predicate Ends(dest: map<nat, nat>, original: map<nat, Descriptor>, nulled: set<nat>, d: nat, n: nat)
    decreases n
  {
    || Stops(original, nulled, d)
    || (n > 0 && var p := Through(original, nulled, d); p in dest && Ends(dest, original, nulled, dest[p], n - 1))
  }

  /** Where it is over. */
  ghost function EndOf(dest: map<nat, nat>, original: map<nat, Descriptor>, nulled: set<nat>, d: nat, n: nat): nat
    requires Ends(dest, original, nulled, d, n)
    decreases n
  {
    if Stops(original, nulled, d) then d else EndOf(dest, original, nulled, dest[Through(original, nulled, d)], n - 1)
  }

  /** Every search ends, whichever interface the operation is sent through. */
  ghost predicate ChainsEnd(dest: map<nat, nat>, original: map<nat, Descriptor>) {
    forall i :: i in dest ==> ChainEnds(dest, original, {}, dest[i])
  }

  ghost predicate ChainEnds(dest: map<nat, nat>, original: map<nat, Descriptor>, nulled: set<nat>, d: nat) {
    exists n: nat :: Ends(dest, original, nulled, d, n)
  }

  /** Whose handler an operation sent to d reaches. */
  ghost function Target(dest: map<nat, nat>, original: map<nat, Descriptor>, nulled: set<nat>, d: nat): nat {
    if ChainEnds(dest, original, nulled, d) then
      var n: nat :| Ends(dest, original, nulled, d, n);
      EndOf(dest, original, nulled, d, n)
    else d
  }

  lemma {:induction false} EndsLater(dest: map<nat, nat>, original: map<nat, Descriptor>, nulled: set<nat>, d: nat, n: nat, m: nat)
    requires Ends(dest, original, nulled, d, n) && n <= m
    ensures Ends(dest, original, nulled, d, m) && EndOf(dest, original, nulled, d, m) == EndOf(dest, original, nulled, d, n)
    decreases n
  {
    hide Stops, Through;
    if !Stops(original, nulled, d) {
      EndsLater(dest, original, nulled, dest[Through(original, nulled, d)], n - 1, m - 1);
    }
  }

  lemma TargetIs(dest: map<nat, nat>, original: map<nat, Descriptor>, nulled: set<nat>, d: nat, n: nat)
    requires Ends(dest, original, nulled, d, n)
    ensures ChainEnds(dest, original, nulled, d) && Target(dest, original, nulled, d) == EndOf(dest, original, nulled, d, n)
  {
    hide Ends, EndOf;
    var m: nat :| Ends(dest, original, nulled, d, m) && Target(dest, original, nulled, d) == EndOf(dest, original, nulled, d, m);
    if m <= n {
      EndsLater(dest, original, nulled, d, m, n);
    } else {
      EndsLater(dest, original, nulled, d, n, m);
    }
  }

  /** Interfaces and what they pass operations on to exist. */
  ghost predicate Plumbed(dest: map<nat, nat>, original: map<nat, Descriptor>) {
    && (forall i :: i in dest ==> dest[i] in original)
    && (forall d :: d in original && original[d].passthru.Some? ==> original[d].passthru.value in dest)
  }

  /** A search that may start anywhere takes one hop more than one that starts at a plug. */
  lemma EndsAnywhere(dest: map<nat, nat>, original: map<nat, Descriptor>, d: nat)
    requires ChainsEnd(dest, original) && Plumbed(dest, original)
    ensures ChainEnds(dest, original, {}, d)
  {
    if Stops(original, {}, d) {
      assert Ends(dest, original, {}, d, 0);
    } else {
      var p := Through(original, {}, d);
      var n: nat :| Ends(dest, original, {}, dest[p], n);
      assert Ends(dest, original, {}, d, n + 1);
    }
  }

  //////////////////////////////////////////////////////////////////////////////
  // Nullifying and unplugging only shorten the search
  //////////////////////////////////////////////////////////////////////////////

  /** Nothing has been plugged, some interfaces may have been unplugged. */
  ghost predicate OnlyUnplugged(dest: map<nat, nat>, dest': map<nat, nat>) {
    && dest'.Keys == dest.Keys
    && forall i :: i in dest ==> dest'[i] == dest[i] || dest'[i] == NULL
  }

  lemma {:induction false} EndsSooner(dest: map<nat, nat>, dest': map<nat, nat>, original: map<nat, Descriptor>,
                                      nulled: set<nat>, d: nat, n: nat)
    requires OnlyUnplugged(dest, dest') && NULL in original && original[NULL] == NULL_DESC
    requires Ends(dest, original, {}, d, n)
    ensures Ends(dest', original, nulled, d, n)
    decreases n
  {
    if !Stops(original, nulled, d) {
      var p := Through(original, nulled, d);
      if dest'[p] == dest[p] {
        EndsSooner(dest, dest', original, nulled, dest[p], n - 1);
      }
    }
  }

  lemma EndsShrinks(dest: map<nat, nat>, dest': map<nat, nat>, original: map<nat, Descriptor>)
    requires ChainsEnd(dest, original) && OnlyUnplugged(dest, dest') && NULL in original && original[NULL] == NULL_DESC
    ensures ChainsEnd(dest', original)
  {
    forall i | i in dest'
      ensures ChainEnds(dest', original, {}, dest'[i])
    {
      if dest'[i] == NULL {
        assert Ends(dest', original, {}, NULL, 0);
      } else {
        var n: nat :| Ends(dest, original, {}, dest[i], n);
        EndsSooner(dest, dest', original, {}, dest[i], n);
      }
    }
  }

  lemma EndsNow(dest: map<nat, nat>, dest': map<nat, nat>, original: map<nat, Descriptor>, nulled: set<nat>, i: nat)
    requires ChainsEnd(dest, original) && OnlyUnplugged(dest, dest') && NULL in original && original[NULL] == NULL_DESC
    requires i in dest
    ensures ChainEnds(dest', original, nulled, dest[i])
  {
    var n: nat :| Ends(dest, original, {}, dest[i], n);
    EndsSooner(dest, dest', original, nulled, dest[i], n);
  }

  //////////////////////////////////////////////////////////////////////////////
  // When every search ends
  //////////////////////////////////////////////////////////////////////////////

  /** An interface whose close operation would be passed on is passed on to one of smaller rank. */
  ghost predicate Below(original: map<nat, Descriptor>, rank: map<nat, nat>, d: nat, bound: nat) {
    !Stops(original, {}, d) ==> var p := Through(original, {}, d); p in rank && rank[p] < bound
  }

  /** Passing operations through leads away from where they came from. */
  ghost predicate Acyclic(dest: map<nat, nat>, original: map<nat, Descriptor>, rank: map<nat, nat>) {
    forall i :: i in dest ==> i in rank && Below(original, rank, dest[i], rank[i])
  }

  lemma {:induction false} RankEnds(dest: map<nat, nat>, original: map<nat, Descriptor>, rank: map<nat, nat>, d: nat, bound: nat)
    requires Plumbed(dest, original) && Acyclic(dest, original, rank) && Below(original, rank, d, bound)
    ensures Ends(dest, original, {}, d, bound)
    decreases bound
  {
    if !Stops(original, {}, d) {
      var p := Through(original, {}, d);
      RankEnds(dest, original, rank, dest[p], rank[p]);
      EndsLater(dest, original, {}, dest[p], rank[p], bound - 1);
    }
  }

  /** The number of hops. */
  ghost function Hops(dest: map<nat, nat>, original: map<nat, Descriptor>, d: nat, n: nat): nat
    requires Ends(dest, original, {}, d, n)
    decreases n
  {
    if Stops(original, {}, d) then 0 else 1 + Hops(dest, original, dest[Through(original, {}, d)], n - 1)
  }

  lemma {:induction false} SameHops(dest: map<nat, nat>, original: map<nat, Descriptor>, d: nat, n: nat, m: nat)
    requires Ends(dest, original, {}, d, n) && Ends(dest, original, {}, d, m)
    ensures Hops(dest, original, d, n) == Hops(dest, original, d, m)
    decreases n
  {
    if !Stops(original, {}, d) {
      SameHops(dest, original, dest[Through(original, {}, d)], n - 1, m - 1);
    }
  }

  ghost function HopsFrom(dest: map<nat, nat>, original: map<nat, Descriptor>, d: nat): nat {
    if ChainEnds(dest, original, {}, d) then var n: nat :| Ends(dest, original, {}, d, n); Hops(dest, original, d, n) else 0
  }

  ghost function HopRank(dest: map<nat, nat>, original: map<nat, Descriptor>): map<nat, nat> {
    map i | i in dest :: HopsFrom(dest, original, dest[i])
  }

  lemma HopRankWorks(dest: map<nat, nat>, original: map<nat, Descriptor>)
    requires Plumbed(dest, original) && ChainsEnd(dest, original)
    ensures Acyclic(dest, original, HopRank(dest, original))
  {
    var rank := HopRank(dest, original);
    forall i | i in dest
      ensures i in rank && Below(original, rank, dest[i], rank[i])
    {
      HopRankBelow(dest, original, i);
    }
  }

  lemma HopRankBelow(dest: map<nat, nat>, original: map<nat, Descriptor>, i: nat)
    requires Plumbed(dest, original) && ChainsEnd(dest, original) && i in dest
    ensures Below(original, HopRank(dest, original), dest[i], HopsFrom(dest, original, dest[i]))
  {
    var d := dest[i];
    assert ChainEnds(dest, original, {}, d);
    if !Stops(original, {}, d) {
      var p := Through(original, {}, d);
      var n: nat :| Ends(dest, original, {}, d, n) && HopsFrom(dest, original, d) == Hops(dest, original, d, n);
      assert ChainEnds(dest, original, {}, dest[p]);
      var m: nat :| Ends(dest, original, {}, dest[p], m) && HopsFrom(dest, original, dest[p]) == Hops(dest, original, dest[p], m);
      SameHops(dest, original, dest[p], n - 1, m);
      assert Hops(dest, original, d, n) == 1 + Hops(dest, original, dest[p], n - 1);
      assert HopRank(dest, original)[p] == HopsFrom(dest, original, dest[p]);
    }
  }

  /** Every search ends exactly when the interfaces can be ranked. */
  lemma EndsExactly(dest: map<nat, nat>, original: map<nat, Descriptor>)
    requires Plumbed(dest, original)
    ensures ChainsEnd(dest, original) <==> exists rank :: Acyclic(dest, original, rank)
  {
    if ChainsEnd(dest, original) {
      HopRankWorks(dest, original);
    }
    if rank :| Acyclic(dest, original, rank) {
      hide Ends, Below;
      forall i | i in dest
        ensures ChainEnds(dest, original, {}, dest[i])
      {
        RankEnds(dest, original, rank, dest[i], rank[i]);
      }
    }
  }

  /** One object that passes everything on, with its two interfaces plugged together: no number of hops leads to
      a handler. */
  lemma {:induction false} NeverEnds(dest: map<nat, nat>, original: map<nat, Descriptor>, f1: nat, f2: nat, n: nat)
    requires f1 in original && original[f1] == Descriptor(None, Some(f2)) && f2 in dest && dest[f2] == f1
    ensures !Ends(dest, original, {}, f1, n)
    decreases n
  {
    if n > 0 {
      NeverEnds(dest, original, f1, f2, n - 1);
    }
  }

  //////////////////////////////////////////////////////////////////////////////
  // Plugging
  //////////////////////////////////////////////////////////////////////////////

  /** The search from e is passed on through interface i within n hops. */
  ghost predicate Crosses(dest: map<nat, nat>, original: map<nat, Descriptor>, e: nat, i: nat, n: nat)
    decreases n
  {
    !Stops(original, {}, e) &&
    var p := Through(original, {}, e);
    p == i || (n > 0 && p in dest && Crosses(dest, original, dest[p], i, n - 1))
  }

  ghost predicate NeverCrosses(dest: map<nat, nat>, original: map<nat, Descriptor>, e: nat, i: nat) {
    forall n: nat :: !Crosses(dest, original, e, i, n)
  }

  lemma {:induction false} SameWithout(dest: map<nat, nat>, original: map<nat, Descriptor>, i: nat, d: nat, e: nat, n: nat)
    requires Ends(dest, original, {}, e, n) && forall m: nat :: !Crosses(dest, original, e, i, m)
    ensures Ends(dest[i := d], original, {}, e, n)
    decreases n
  {
    if !Stops(original, {}, e) {
      var p := Through(original, {}, e);
      assert !Crosses(dest, original, e, i, 0);
      forall m: nat
        ensures !Crosses(dest, original, dest[p], i, m)
      {
        assert !Crosses(dest, original, e, i, m + 1);
      }
      SameWithout(dest, original, i, d, dest[p], n - 1);
    }
  }

  lemma {:induction false} AfterPlug(dest: map<nat, nat>, original: map<nat, Descriptor>, i: nat, d: nat, e: nat, n: nat, m: nat)
    requires i in dest && Ends(dest, original, {}, e, n) && Ends(dest[i := d], original, {}, d, m)
    ensures Ends(dest[i := d], original, {}, e, n + 1 + m)
    decreases n
  {
    if !Stops(original, {}, e) {
      var p := Through(original, {}, e);
      if p == i {
        EndsLater(dest[i := d], original, {}, d, m, n + m);
      } else {
        AfterPlug(dest, original, i, d, dest[p], n - 1, m);
      }
    }
  }

  lemma {:induction false} ComesBack(dest: map<nat, nat>, dest': map<nat, nat>, original: map<nat, Descriptor>, i: nat,
                                     d: nat, e: nat, k: nat, m: nat)
    requires dest' == dest[i := d] && Crosses(dest, original, e, i, k) && StillGoing(dest', original, d, m)
    ensures !Ends(dest', original, {}, e, m)
    decreases k
  {
    var p := Through(original, {}, e);
    if m > 0 {
      if p == i {
        assert !Ends(dest', original, {}, d, m - 1);
      } else {
        ComesBack(dest, dest', original, i, d, dest[p], k - 1, m - 1);
      }
    }
  }

  ghost predicate StillGoing(dest: map<nat, nat>, original: map<nat, Descriptor>, d: nat, m: nat) {
    forall j: nat :: j < m ==> !Ends(dest, original, {}, d, j)
  }

  lemma {:induction false} ComesBackForever(dest: map<nat, nat>, dest': map<nat, nat>, original: map<nat, Descriptor>,
                                            i: nat, d: nat, k: nat, m: nat)
    requires dest' == dest[i := d] && Crosses(dest, original, d, i, k)
    ensures !Ends(dest', original, {}, d, m)
    decreases m
  {
    hide Ends, Crosses;
    forall j: nat | j < m
      ensures !Ends(dest', original, {}, d, j)
    {
      ComesBackForever(dest, dest', original, i, d, k, j);
    }
    ComesBack(dest, dest', original, i, d, d, k, m);
  }

  lemma NeverAgain(dest: map<nat, nat>, original: map<nat, Descriptor>, i: nat, d: nat, k: nat)
    requires i in dest && Crosses(dest, original, d, i, k)
    ensures !ChainsEnd(dest[i := d], original)
  {
    var dest' := dest[i := d];
    hide Ends, Crosses;
    forall m: nat
      ensures !Ends(dest', original, {}, d, m)
    {
      ComesBackForever(dest, dest', original, i, d, k, m);
    }
    assert dest'[i] == d && !ChainEnds(dest', original, {}, d);
  }

  lemma PlugKeeps(dest: map<nat, nat>, original: map<nat, Descriptor>, i: nat, d: nat)
    requires Plumbed(dest, original) && ChainsEnd(dest, original) && i in dest
    requires NeverCrosses(dest, original, d, i)
    ensures ChainsEnd(dest[i := d], original)
  {
    var dest' := dest[i := d];
    EndsAnywhere(dest, original, d);
    hide Ends, Crosses;
    var m: nat :| Ends(dest, original, {}, d, m);
    SameWithout(dest, original, i, d, d, m);
    forall j | j in dest'
      ensures ChainEnds(dest', original, {}, dest'[j])
    {
      if j == i {
        assert Ends(dest', original, {}, d, m);
      } else {
        var n: nat :| Ends(dest, original, {}, dest[j], n);
        AfterPlug(dest, original, i, d, dest[j], n, m);
      }
    }
  }

  /** intf_plug keeps every search finite exactly when no search from the new destination leads back through the
      interface that is plugged. */
  lemma PlugExactly(dest: map<nat, nat>, original: map<nat, Descriptor>, i: nat, d: nat)
    requires Plumbed(dest, original) && ChainsEnd(dest, original) && i in dest
    ensures ChainsEnd(dest[i := d], original) <==> NeverCrosses(dest, original, d, i)
  {
    hide ChainsEnd, Crosses;
    if k: nat :| Crosses(dest, original, d, i, k) {
      NeverAgain(dest, original, i, d, k);
    } else {
      PlugKeeps(dest, original, i, d);
    }
  }

  //////////////////////////////////////////////////////////////////////////////
  // Inserting a filter
  //////////////////////////////////////////////////////////////////////////////

  function Replugged(dest: map<nat, nat>, i: nat, d: nat): map<nat, nat> {
    if i == NULL then dest else dest[i := d]
  }

  /** The web after intf_insert. */
  function Inserted(dest: map<nat, nat>, i: nat, d: nat, upper: nat, lower: nat): map<nat, nat> {
    Replugged(Replugged(Replugged(Replugged(dest, i, upper), upper, i), lower, d), d, lower)
  }

  /** A new filter for the connection between i and d: nothing is plugged into its two ends, and nobody else
      passes operations on to them. */
  ghost predicate NewFilter(dest: map<nat, nat>, original: map<nat, Descriptor>, i: nat, d: nat, upper: nat, lower: nat) {
    && i in dest && upper in dest && lower in dest && dest[i] == d
    && NULL != i && NULL != upper && NULL != lower && i != upper && i != lower && upper != lower
    && d != i && d != upper && d != lower && (d == NULL || (d in dest && dest[d] == i))
    && (forall j :: j in dest ==> dest[j] != upper && dest[j] != lower)
    && (forall e :: e in original && original[e].passthru == Some(upper) ==> e == lower)
    && (forall e :: e in original && original[e].passthru == Some(lower) ==> e == upper)
    && (upper in original && original[upper].passthru.Some? ==> original[upper].passthru == Some(lower))
    && (lower in original && original[lower].passthru.Some? ==> original[lower].passthru == Some(upper))
  }

  /** The search takes at most one extra hop for every hop. */
  lemma {:induction false} ThroughFilter(dest: map<nat, nat>, original: map<nat, Descriptor>, i: nat, d: nat, upper: nat,
                                         lower: nat, e: nat, n: nat)
    requires NewFilter(dest, original, i, d, upper, lower) && Ends(dest, original, {}, e, n)
    requires NULL in original && original[NULL] == NULL_DESC && NULL in dest && dest[NULL] == NULL
    requires e != upper && e != lower
    ensures Ends(Inserted(dest, i, d, upper, lower), original, {}, e, 2 * n)
    decreases n
  {
    var dest' := Inserted(dest, i, d, upper, lower);
    if !Stops(original, {}, e) {
      var p := Through(original, {}, e);
      assert p != upper && p != lower;
      ThroughFilter(dest, original, i, d, upper, lower, dest[p], n - 1);
      if p == i {
        FilterEnd(dest', original, upper, lower, d, 2 * n - 2);
      } else if p == d && d != NULL {
        FilterEnd(dest', original, lower, upper, i, 2 * n - 2);
      } else {
        assert dest'[p] == dest[p];
        EndsLater(dest', original, {}, dest[p], 2 * n - 2, 2 * n - 1);
      }
    }
  }

  lemma FilterEnd(dest: map<nat, nat>, original: map<nat, Descriptor>, near: nat, far: nat, e: nat, n: nat)
    requires far in dest && dest[far] == e && Ends(dest, original, {}, e, n)
    requires near in original && original[near].passthru.Some? ==> original[near].passthru == Some(far)
    ensures Ends(dest, original, {}, near, n + 1)
  {
  }

  /** Inserting a new filter keeps every search finite. */
  lemma InsertKeeps(dest: map<nat, nat>, original: map<nat, Descriptor>, i: nat, d: nat, upper: nat, lower: nat)
    requires Plumbed(dest, original) && ChainsEnd(dest, original) && NewFilter(dest, original, i, d, upper, lower)
    requires NULL in original && original[NULL] == NULL_DESC && NULL in dest && dest[NULL] == NULL
    ensures ChainsEnd(Inserted(dest, i, d, upper, lower), original)
  {
    var dest' := Inserted(dest, i, d, upper, lower);
    hide Ends, Stops, Plumbed;
    forall j | j in dest'
      ensures ChainEnds(dest', original, {}, dest'[j])
    {
      if j == i {
        EndsInFilter(dest, original, i, d, upper, lower, d);
        var n: nat :| Ends(dest', original, {}, d, n);
        FilterEnd(dest', original, upper, lower, d, n);
      } else if j == d && d != NULL {
        EndsInFilter(dest, original, i, d, upper, lower, i);
        var n: nat :| Ends(dest', original, {}, i, n);
        FilterEnd(dest', original, lower, upper, i, n);
      } else {
        EndsInFilter(dest, original, i, d, upper, lower, dest'[j]);
      }
    }
  }

  lemma EndsInFilter(dest: map<nat, nat>, original: map<nat, Descriptor>, i: nat, d: nat, upper: nat, lower: nat, e: nat)
    requires Plumbed(dest, original) && ChainsEnd(dest, original) && NewFilter(dest, original, i, d, upper, lower)
    requires NULL in original && original[NULL] == NULL_DESC && NULL in dest && dest[NULL] == NULL
    requires e != upper && e != lower
    ensures ChainEnds(Inserted(dest, i, d, upper, lower), original, {}, e)
  {
    hide Ends, Stops, NewFilter;
    EndsAnywhere(dest, original, e);
    var n: nat :| Ends(dest, original, {}, e, n);
    ThroughFilter(dest, original, i, d, upper, lower, e, n);
  }
}
