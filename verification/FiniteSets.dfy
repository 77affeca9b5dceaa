/**
  Cardinality facts about finite sets that several components share.
 */
module FiniteSets {

  ghost predicate MapsInto<A, B>(s: set<A>, t: set<B>, f: map<A, B>) {
    forall a :: a in s ==> a in f && f[a] in t
  }

  ghost predicate InjectiveOn<A, B>(s: set<A>, f: map<A, B>)
    requires s <= f.Keys
  {
    forall a, b :: a in s && b in s && f[a] == f[b] ==> a == b
  }

  /** A set that is mapped one-to-one into another is no larger. */
  lemma {:induction false} InjectionBound<A, B>(s: set<A>, t: set<B>, f: map<A, B>)
    requires s <= f.Keys
    requires MapsInto(s, t, f)
    requires InjectiveOn(s, f)
    ensures |s| <= |t|
    decreases s
  {
    if s != {} {
      var a :| a in s;
      InjectionBound(s - {a}, t - {f[a]}, f);
    }
  }

  lemma SubsetBound<A>(s: set<A>, t: set<A>)
    requires s <= t
    ensures |s| <= |t|
    ensures |s| == |t| ==> s == t
  {
    assert t == s + (t - s);
  }

  ghost function Below(n: nat): (s: set<nat>) {
    set i: nat {:trigger i in Below(n)} | i < n
  }

  lemma {:induction false} BelowCardinality(n: nat)
    ensures |Below(n)| == n
  {
    if n > 0 {
      BelowCardinality(n - 1);
      assert Below(n) == Below(n - 1) + {n - 1};
    }
  }
}
