/** Lists of numbered entries, as the source links and unlinks them. */
module Lists {

  ghost predicate Distinct(s: seq<nat>) {
    forall i, j :: 0 <= i < j < |s| ==> s[i] != s[j]
  }

  /** list_del. */
  function Without(cs: seq<nat>, s: nat): (r: seq<nat>)
    ensures s !in r
    ensures forall c :: c in r <==> c in cs && c != s
  {
    if cs == [] then [] else if cs[0] == s then Without(cs[1..], s) else [cs[0]] + Without(cs[1..], s)
  }

  lemma {:induction false} WithoutDistinct(cs: seq<nat>, s: nat)
    requires Distinct(cs)
    ensures Distinct(Without(cs, s))
  {
    if cs != [] {
      var w := Without(cs[1..], s);
      WithoutDistinct(cs[1..], s);
      forall j | 0 <= j < |w|
        ensures w[j] != cs[0]
      {
        assert w[j] in cs[1..];
      }
    }
  }

  lemma {:induction false} WithoutAbsent(cs: seq<nat>, s: nat)
    requires s !in cs
    ensures Without(cs, s) == cs
  {
    if cs != [] {
      WithoutAbsent(cs[1..], s);
    }
  }

  lemma {:induction false} WithoutMultiset(cs: seq<nat>, s: nat)
    requires Distinct(cs) && s in cs
    ensures multiset(Without(cs, s)) + multiset{s} == multiset(cs)
  {
    assert cs == [cs[0]] + cs[1..];
    if cs[0] == s {
      WithoutAbsent(cs[1..], s);
    } else {
      WithoutMultiset(cs[1..], s);
    }
  }
}
