/**
  Finite directed graphs as adjacency maps: what a node reaches, and when a new
  edge keeps a graph without cycles.
 */
module Digraphs {
  import opened FiniteSets

  /** Edges lead to nodes of the graph only. */
  ghost predicate IsGraph<E>(g: map<E, set<E>>) {
    forall x :: x in g ==> g[x] <= g.Keys
  }

  /** There is a walk of n edges from x to y. */
  ghost predicate Walk<E>(g: map<E, set<E>>, x: E, y: E, n: nat) {
    x in g && if n == 0 then x == y else exists z :: z in g[x] && Walk(g, z, y, n - 1)
  }

  ghost predicate Reaches<E>(g: map<E, set<E>>, x: E, y: E) {
    exists n: nat :: Walk(g, x, y, n)
  }

  /** The nodes that x reaches by at least one edge. */
  ghost function Successors<E>(g: map<E, set<E>>, x: E): (s: set<E>)
    requires x in g
    ensures s <= g.Keys
  {
    set y | y in g && LeadsTo(g, x, y)
  }

  ghost predicate LeadsTo<E>(g: map<E, set<E>>, x: E, y: E)
    requires x in g
  {
    exists z :: z in g[x] && Reaches(g, z, y)
  }

  ghost predicate Acyclic<E>(g: map<E, set<E>>) {
    forall x :: x in g ==> !LeadsTo(g, x, x)
  }

  lemma {:induction false} WalkJoin<E>(g: map<E, set<E>>, x: E, y: E, z: E, m: nat, n: nat)
    requires Walk(g, x, y, m) && Walk(g, y, z, n)
    ensures Walk(g, x, z, m + n)
    decreases m
  {
    if m > 0 {
      var w :| w in g[x] && Walk(g, w, y, m - 1);
      WalkJoin(g, w, y, z, m - 1, n);
    }
  }

  lemma ReachesTransitive<E>(g: map<E, set<E>>, x: E, y: E, z: E)
    requires Reaches(g, x, y) && Reaches(g, y, z)
    ensures Reaches(g, x, z)
  {
    var m: nat :| Walk(g, x, y, m);
    var n: nat :| Walk(g, y, z, n);
    WalkJoin(g, x, y, z, m, n);
  }

  lemma ReachesSelf<E>(g: map<E, set<E>>, x: E)
    requires x in g
    ensures Reaches(g, x, x)
  {
    assert Walk(g, x, x, 0);
  }

  /** Reaching a node is being it or leading to it. */
  lemma ReachesBySteps<E>(g: map<E, set<E>>, x: E, y: E)
    requires x in g
    ensures Reaches(g, x, y) <==> x == y || LeadsTo(g, x, y)
  {
    if Reaches(g, x, y) {
      var n: nat :| Walk(g, x, y, n);
      if n > 0 {
        var z :| z in g[x] && Walk(g, z, y, n - 1);
        assert Reaches(g, z, y);
      }
    }
    if x == y {
      ReachesSelf(g, x);
    }
    if LeadsTo(g, x, y) {
      var z :| z in g[x] && Reaches(g, z, y);
      var n: nat :| Walk(g, z, y, n);
      assert Walk(g, x, y, n + 1);
    }
  }

  lemma {:induction false} WalkStaysInside<E>(g: map<E, set<E>>, x: E, y: E, n: nat)
    requires Walk(g, x, y, n)
    ensures y in g
  {
    if n > 0 {
      var z :| z in g[x] && Walk(g, z, y, n - 1);
      WalkStaysInside(g, z, y, n - 1);
    }
  }

  /** The successors of a node are its neighbours and their successors. */
  lemma SuccessorsOfNeighbour<E>(g: map<E, set<E>>, x: E, z: E)
    requires IsGraph(g) && x in g && z in g[x]
    ensures z in Successors(g, x) && Successors(g, z) <= Successors(g, x)
  {
    ReachesSelf(g, z);
    forall y | y in Successors(g, z) ensures y in Successors(g, x) {
      ReachesBySteps(g, z, y);
    }
  }

  lemma SuccessorsTransitive<E>(g: map<E, set<E>>, x: E, y: E)
    requires IsGraph(g) && x in g && y in Successors(g, x)
    ensures Successors(g, y) <= Successors(g, x)
  {
    var w :| w in g[x] && Reaches(g, w, y);
    forall z | z in Successors(g, y) ensures z in Successors(g, x) {
      ReachesBySteps(g, y, z);
      ReachesTransitive(g, w, y, z);
    }
  }

  /** A set that holds the neighbours of x and of its own members holds all that x leads to. */
  lemma {:induction false} ClosedSetHoldsWalks<E>(g: map<E, set<E>>, s: set<E>, x: E, y: E, n: nat)
    requires x in s && forall z :: z in s && z in g ==> g[z] <= s
    requires Walk(g, x, y, n)
    ensures y in s
  {
    if n > 0 {
      var z :| z in g[x] && Walk(g, z, y, n - 1);
      ClosedSetHoldsWalks(g, s, z, y, n - 1);
    }
  }

  lemma ClosedSetHoldsSuccessors<E>(g: map<E, set<E>>, s: set<E>, x: E)
    requires x in g && g[x] <= s
    requires forall z :: z in s && z in g ==> g[z] <= s
    ensures Successors(g, x) <= s
  {
    forall y | y in Successors(g, x) ensures y in s {
      var z :| z in g[x] && Reaches(g, z, y);
      var n: nat :| Walk(g, z, y, n);
      ClosedSetHoldsWalks(g, s, z, y, n);
    }
  }

  // ---- height ---------------------------------------------------------------------------

  ghost function Height<E>(g: map<E, set<E>>, x: E): nat
    requires x in g
  {
    |Successors(g, x)|
  }

  /** Without cycles every edge leads to a node of smaller height. */
  lemma HeightFalls<E>(g: map<E, set<E>>, x: E, z: E)
    requires IsGraph(g) && Acyclic(g) && x in g && z in g[x]
    ensures Height(g, z) < Height(g, x)
  {
    SuccessorsOfNeighbour(g, x, z);
    assert z !in Successors(g, z);
    SubsetBound(Successors(g, z) + {z}, Successors(g, x));
  }

  // ---- adding an edge -------------------------------------------------------------------

  /** A walk in the larger graph is a walk in the smaller one, or passes over the new edge. */
  lemma {:induction false} WalkWithNewEdge<E>(g: map<E, set<E>>, e: E, l: E, x: E, y: E, n: nat)
    requires e in g && l in g && Walk(g[e := g[e] + {l}], x, y, n)
    ensures Reaches(g, x, y) || (Reaches(g, x, e) && Reaches(g, l, y))
    decreases n
  {
    var g' := g[e := g[e] + {l}];
    if n == 0 {
      ReachesSelf(g, x);
    } else {
      var z :| z in g'[x] && Walk(g', z, y, n - 1);
      WalkWithNewEdge(g, e, l, z, y, n - 1);
      if z in g[x] {
        assert forall w :: Reaches(g, z, w) ==> LeadsTo(g, x, w);
        ReachesBySteps(g, x, y);
        ReachesBySteps(g, x, e);
      } else {
        ReachesSelf(g, e);
      }
    }
  }

  lemma {:induction false} WalkInLargerGraph<E>(g: map<E, set<E>>, g': map<E, set<E>>, x: E, y: E, n: nat)
    requires g.Keys <= g'.Keys && forall z :: z in g ==> g[z] <= g'[z]
    requires Walk(g, x, y, n)
    ensures Walk(g', x, y, n)
    decreases n
  {
    if n > 0 {
      var z :| z in g[x] && Walk(g, z, y, n - 1);
      WalkInLargerGraph(g, g', z, y, n - 1);
    }
  }

  lemma ReachesInLargerGraph<E>(g: map<E, set<E>>, g': map<E, set<E>>, x: E, y: E)
    requires g.Keys <= g'.Keys && forall z :: z in g ==> g[z] <= g'[z]
    requires Reaches(g, x, y)
    ensures Reaches(g', x, y)
  {
    var n: nat :| Walk(g, x, y, n);
    WalkInLargerGraph(g, g', x, y, n);
  }

  lemma SuccessorsInLargerGraph<E>(g: map<E, set<E>>, g': map<E, set<E>>, x: E)
    requires g.Keys <= g'.Keys && forall z :: z in g ==> g[z] <= g'[z]
    requires x in g
    ensures Successors(g, x) <= Successors(g', x)
  {
    forall y | y in Successors(g, x) ensures y in Successors(g', x) {
      var z :| z in g[x] && Reaches(g, z, y);
      ReachesInLargerGraph(g, g', z, y);
    }
  }

  /** A new edge from e to l makes a cycle exactly if l reaches e already. */
  lemma NewEdgeKeepsAcyclic<E>(g: map<E, set<E>>, e: E, l: E)
    requires e in g && l in g
    ensures Acyclic(g[e := g[e] + {l}]) <==> Acyclic(g) && !Reaches(g, l, e)
  {
    var g' := g[e := g[e] + {l}];
    if Reaches(g, l, e) {
      ReachesInLargerGraph(g, g', l, e);
      assert LeadsTo(g', e, e);
    }
    if !Acyclic(g) {
      var x :| x in g && LeadsTo(g, x, x);
      var z :| z in g[x] && Reaches(g, z, x);
      ReachesInLargerGraph(g, g', z, x);
      assert z in g'[x] && LeadsTo(g', x, x);
    }
    if !Acyclic(g') {
      var x :| x in g' && LeadsTo(g', x, x);
      var z :| z in g'[x] && Reaches(g', z, x);
      var n: nat :| Walk(g', z, x, n);
      WalkWithNewEdge(g, e, l, z, x, n);
      if z in g[x] {
        if !Reaches(g, z, x) {
          ReachesBySteps(g, x, e);
          assert LeadsTo(g, x, e);
          ReachesTransitive(g, l, x, e);
        }
      }
    }
  }

  /** An edge out of e opens no new way to e. */
  lemma NewEdgeFromTarget<E>(g: map<E, set<E>>, e: E, l: E, x: E)
    requires e in g && l in g && x in g
    ensures Reaches(g[e := g[e] + {l}], x, e) <==> Reaches(g, x, e)
  {
    var g' := g[e := g[e] + {l}];
    if Reaches(g', x, e) {
      var n: nat :| Walk(g', x, e, n);
      WalkWithNewEdge(g, e, l, x, e, n);
    }
    if Reaches(g, x, e) {
      ReachesInLargerGraph(g, g', x, e);
    }
  }

  lemma {:induction false} NoWayIn<E>(g: map<E, set<E>>, e: E, x: E, n: nat)
    requires x != e && forall z :: z in g ==> e !in g[z]
    ensures !Walk(g, x, e, n)
    decreases n
  {
    if n > 0 && Walk(g, x, e, n) {
      var z :| z in g[x] && Walk(g, z, e, n - 1);
      NoWayIn(g, e, z, n - 1);
    }
  }

  /** Nothing reaches a node without incoming edges but itself. */
  lemma NoReachingIn<E>(g: map<E, set<E>>, e: E, x: E)
    requires x != e && forall z :: z in g ==> e !in g[z]
    ensures !Reaches(g, x, e)
  {
    forall n: nat ensures !Walk(g, x, e, n) {
      NoWayIn(g, e, x, n);
    }
  }

  /** New edges out of a node without incoming edges do not matter to other nodes. */
  lemma OtherSuccessorsUnchanged<E>(g: map<E, set<E>>, e: E, l: E, x: E)
    requires e in g && l in g && l != e && x in g && x != e
    requires forall z :: z in g ==> e !in g[z]
    ensures Successors(g[e := g[e] + {l}], x) == Successors(g, x)
  {
    var g' := g[e := g[e] + {l}];
    SuccessorsInLargerGraph(g, g', x);
    forall y | y in Successors(g', x) ensures y in Successors(g, x) {
      var z :| z in g'[x] && Reaches(g', z, y);
      var n: nat :| Walk(g', z, y, n);
      WalkWithNewEdge(g, e, l, z, y, n);
      NoReachingIn(g, e, z);
    }
  }

  lemma {:induction false} WalkAvoidsNewNode<E>(g: map<E, set<E>>, e: E, x: E, y: E, n: nat)
    requires IsGraph(g) && e !in g && x in g && Walk(g[e := {}], x, y, n)
    ensures Walk(g, x, y, n)
    decreases n
  {
    if n > 0 {
      var z :| z in g[e := {}][x] && Walk(g[e := {}], z, y, n - 1);
      WalkAvoidsNewNode(g, e, z, y, n - 1);
    }
  }

  /** A new node without edges changes nothing for the others. */
  lemma NewNode<E>(g: map<E, set<E>>, e: E)
    requires IsGraph(g) && e !in g
    ensures IsGraph(g[e := {}]) && Successors(g[e := {}], e) == {}
    ensures forall x :: x in g ==> Successors(g[e := {}], x) == Successors(g, x)
    ensures Acyclic(g) ==> Acyclic(g[e := {}])
  {
    var g' := g[e := {}];
    forall x | x in g ensures Successors(g', x) == Successors(g, x) {
      SuccessorsInLargerGraph(g, g', x);
      forall y | y in Successors(g', x) ensures y in Successors(g, x) {
        var z :| z in g'[x] && Reaches(g', z, y);
        var n: nat :| Walk(g', z, y, n);
        WalkAvoidsNewNode(g, e, z, y, n);
        WalkStaysInside(g, z, y, n);
      }
    }
    forall x | Acyclic(g) && x in g' ensures !LeadsTo(g', x, x) {
      if x in g {
        assert x !in Successors(g, x);
      }
    }
  }

  // ---- restricted walks -------------------------------------------------------------------

  /** The graph in which only nodes of the given set can be entered. */
  ghost function Through<E>(g: map<E, set<E>>, pass: set<E>): (h: map<E, set<E>>)
    ensures h.Keys == g.Keys
  {
    map x | x in g :: g[x] * pass
  }

  /** What walks from x through `pass` run into that is not good. */
  ghost function Frontier<E>(g: map<E, set<E>>, good: set<E>, pass: set<E>, x: E): set<E>
    requires x in g
  {
    set y | y in g && y !in good && IsNextTo(g, {x} + Successors(Through(g, pass), x), y)
  }

  ghost predicate IsNextTo<E>(g: map<E, set<E>>, s: set<E>, y: E)
    requires s <= g.Keys
  {
    exists z :: z in s && y in g[z]
  }

  /** If all successors of a good node that cannot be entered are good, nothing bad is run
      into exactly when nothing bad can be reached at all. */
  lemma FrontierDecides<E>(g: map<E, set<E>>, good: set<E>, pass: set<E>, x: E)
    requires IsGraph(g) && x in g
    requires forall y :: y in g && y in good && y !in pass ==> Successors(g, y) <= good
    ensures Frontier(g, good, pass, x) == {} <==> Successors(g, x) <= good
  {
    var h := Through(g, pass);
    var seen := {x} + Successors(h, x);
    SuccessorsInLargerGraph(h, g, x);
    if y :| y in Frontier(g, good, pass, x) {
      var z :| z in seen && y in g[z];
      SuccessorsOfNeighbour(g, z, y);
      if z != x {
        SuccessorsTransitive(g, x, z);
      }
      assert y in Successors(g, x);
    }
    if Frontier(g, good, pass, x) == {} {
      var s := set y | y in g && y in good && (y in seen || Successors(g, y) <= good);
      forall z, y | z in g && (z == x || z in s) && y in g[z] ensures y in s {
        if z in seen {
          assert y in good by {
            assert IsNextTo(g, seen, y) && y !in Frontier(g, good, pass, x);
          }
          if y in pass {
            EnteredNext(h, x, z, y);
          }
        } else {
          SuccessorsOfNeighbour(g, z, y);
        }
      }
      ClosedSetHoldsSuccessors(g, s, x);
    }
  }

  lemma EnteredNext<E>(h: map<E, set<E>>, x: E, z: E, y: E)
    requires x in h && z in h && (z == x || z in Successors(h, x)) && y in h[z] && y in h
    ensures y in Successors(h, x)
  {
    ReachesSelf(h, y);
    if z != x {
      var w :| w in h[x] && Reaches(h, w, z);
      assert LeadsTo(h, z, y);
      ReachesBySteps(h, z, y);
      ReachesTransitive(h, w, z, y);
    }
  }
}
