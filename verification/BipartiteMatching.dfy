/**
  Maximum bipartite matching between elements and matchers, as used by
  UnorderedElementsAre: a recursive augmenting search over two mutually
  referent link vectors, proved maximum with a vertex cover.
 */
module BipartiteGraphs {
  import opened FiniteSets

  /** The connectivity matrix, stored flat in element-major order. */
  datatype MatchMatrix = MatchMatrix(numElements: nat, numMatchers: nat, matched: seq<bool>) {

    ghost predicate Valid() {
      |matched| == numElements * numMatchers
    }

    function LhsSize(): nat {
      numElements
    }

    function RhsSize(): nat {
      numMatchers
    }

    predicate HasEdge(ilhs: nat, irhs: nat)
      requires Valid() && ilhs < LhsSize() && irhs < RhsSize()
    {
      matched[SpaceIndex(ilhs, irhs)]
    }

    /** Changes one cell and no other. */
    function SetEdge(ilhs: nat, irhs: nat, b: bool): (g: MatchMatrix)
      requires Valid() && ilhs < LhsSize() && irhs < RhsSize()
      ensures g.Valid() && g.LhsSize() == LhsSize() && g.RhsSize() == RhsSize()
      ensures forall k: nat, l: nat :: k < LhsSize() && l < RhsSize() ==>
                g.HasEdge(k, l) == if k == ilhs && l == irhs then b else HasEdge(k, l)
    {
      var g := this.(matched := matched[SpaceIndex(ilhs, irhs) := b]);
      assert forall k: nat, l: nat :: k < LhsSize() && l < RhsSize() ==>
          g.HasEdge(k, l) == if k == ilhs && l == irhs then b else HasEdge(k, l) by {
        forall k: nat, l: nat | k < LhsSize() && l < RhsSize()
          ensures g.HasEdge(k, l) == if k == ilhs && l == irhs then b else HasEdge(k, l)
        {
          SpaceIndexInjects(ilhs, irhs, k, l);
        }
      }
      g
    }

    function SpaceIndex(ilhs: nat, irhs: nat): (index: nat)
      requires Valid() && ilhs < LhsSize() && irhs < RhsSize()
      ensures index < |matched|
    {
      RowsFit(ilhs + 1, numElements, numMatchers);
      assert (ilhs + 1) * numMatchers == ilhs * numMatchers + numMatchers;
      ilhs * numMatchers + irhs
    }

    lemma SpaceIndexInjects(ilhs: nat, irhs: nat, k: nat, l: nat)
      requires Valid() && ilhs < LhsSize() && irhs < RhsSize() && k < LhsSize() && l < RhsSize()
      ensures SpaceIndex(ilhs, irhs) == SpaceIndex(k, l) ==> ilhs == k && irhs == l
    {
      if ilhs < k {
        RowsFit(ilhs + 1, k, numMatchers);
      } else if k < ilhs {
        RowsFit(k + 1, ilhs, numMatchers);
      }
    }
  }

  lemma RowsFit(rows: nat, allRows: nat, width: nat)
    requires rows <= allRows
    ensures rows * width <= allRows * width
  {
  }

  /** A new matrix has no edges. */
  function NewMatrix(numElements: nat, numMatchers: nat): (g: Graph)
    ensures g.LhsSize() == numElements && g.RhsSize() == numMatchers
    ensures forall k: nat, l: nat :: k < numElements && l < numMatchers ==> !g.HasEdge(k, l)
  {
    MatchMatrix(numElements, numMatchers, seq(numElements * numMatchers, _ => false))
  }

  type Graph = g: MatchMatrix | g.Valid() witness MatchMatrix(0, 0, [])

  type Edge = (nat, nat)

  ghost predicate IsEdge(g: Graph, e: Edge) {
    e.0 < g.LhsSize() && e.1 < g.RhsSize() && g.HasEdge(e.0, e.1)
  }

  /** A set of edges no two of which share an endpoint. */
  ghost predicate IsMatching(g: Graph, m: set<Edge>) {
    && (forall e :: e in m ==> IsEdge(g, e))
    && (forall e, f :: e in m && f in m && (e.0 == f.0 || e.1 == f.1) ==> e == f)
  }

  // ---- link vectors --------------------------------------------------------

  const UNUSED := -1

  ghost predicate InRange(links: seq<int>, size: nat, bound: nat) {
    |links| == size && forall i :: 0 <= i < size ==> UNUSED <= links[i] < bound
  }

  /** The documented invariant: every used entry of either vector is referenced
      back by the other one, and runs along an edge. */
  ghost predicate MutuallyReferent(g: Graph, left: seq<int>, right: seq<int>) {
    && InRange(left, g.LhsSize(), g.RhsSize())
    && InRange(right, g.RhsSize(), g.LhsSize())
    && (forall l, r :: 0 <= l < |left| && 0 <= r < |right| ==> (left[l] == r <==> right[r] == l))
    && (forall l :: 0 <= l < |left| && left[l] != UNUSED ==> g.HasEdge(l, left[l]))
  }

  /** The flow that a left vector stands for. */
  ghost function Flow(left: seq<int>): set<Edge> {
    set l: nat, r: nat | l < |left| && r == left[l] :: (l, r)
  }

  lemma FlowIsMatching(g: Graph, left: seq<int>, right: seq<int>)
    requires MutuallyReferent(g, left, right)
    ensures IsMatching(g, Flow(left))
  {
    forall e, f | e in Flow(left) && f in Flow(left) && (e.0 == f.0 || e.1 == f.1) ensures e == f {
      assert right[left[e.0]] == e.0 && right[left[f.0]] == f.0;
    }
  }

  // ---- residual search -----------------------------------------------------

  ghost predicate NeighboursWithin(g: Graph, l: nat, region: set<nat>)
    requires l < g.LhsSize()
  {
    forall r: nat :: r < g.RhsSize() && g.HasEdge(l, r) ==> r in region
  }

  /** Every node of the region is matched, and no residual edge leaves the
      region from the partners of its nodes. */
  ghost predicate Closed(g: Graph, right: seq<int>, region: set<nat>)
    requires InRange(right, g.RhsSize(), g.LhsSize())
  {
    forall r: nat :: r in region ==>
                r < g.RhsSize() && right[r] != UNUSED && NeighboursWithin(g, right[r], region)
  }

  /** A residual path from left node l to the sink, listed by its right nodes. */
  ghost predicate AugmentingPath(g: Graph, right: seq<int>, l: nat, path: seq<nat>)
    requires InRange(right, g.RhsSize(), g.LhsSize()) && l < g.LhsSize()
    decreases |path|
  {
    && path != []
    && path[0] < g.RhsSize()
    && g.HasEdge(l, path[0])
    && (if |path| == 1 then right[path[0]] == UNUSED
        else right[path[0]] != UNUSED && AugmentingPath(g, right, right[path[0]], path[1..]))
  }

  /** No augmenting path starts at a node whose neighbours lie in a closed region. */
  lemma {:induction false} ClosedBlocksPaths(g: Graph, right: seq<int>, region: set<nat>, l: nat, path: seq<nat>)
    requires InRange(right, g.RhsSize(), g.LhsSize()) && l < g.LhsSize()
    requires Closed(g, right, region) && NeighboursWithin(g, l, region)
    ensures !AugmentingPath(g, right, l, path)
    decreases |path|
  {
    if AugmentingPath(g, right, l, path) {
      assert path[0] in region;
      ClosedBlocksPaths(g, right, region, right[path[0]], path[1..]);
    }
  }

  /** Koenig: when the neighbours of all unmatched left nodes lie in a closed
      region, the flow is at least as large as any matching. */
  lemma ClosedRegionBoundsMatchings(g: Graph, left: seq<int>, right: seq<int>, region: set<nat>, m: set<Edge>)
    requires MutuallyReferent(g, left, right)
    requires Closed(g, right, region)
    requires forall l: nat :: l < |left| && left[l] == UNUSED ==> NeighboursWithin(g, l, region)
    requires IsMatching(g, m)
    ensures |m| <= |Flow(left)|
  {
    // Charge an edge into the region to its right end, any other to its left end.
    var charge: map<Edge, Edge> :=
      map e: Edge | e in m :: if e.1 in region then (right[e.1], e.1) else (e.0, left[e.0]);
    forall e, f | e in m && f in m && charge[e] == charge[f] ensures e == f {
      if e.1 in region && f.1 !in region {
        assert false;
      }
      if f.1 in region && e.1 !in region {
        assert false;
      }
    }
    InjectionBound(m, Flow(left), charge);
  }
}

module BipartiteMatching {
  import opened BipartiteGraphs

  ghost function Marked(seen: seq<bool>): (s: set<nat>)
    ensures forall r: nat :: r in s <==> r < |seen| && seen[r]
  {
    set r: nat | r < |seen| && seen[r]
  }

  ghost function Unmarked(seen: seq<bool>): set<nat> {
    set r: nat | r < |seen| && !seen[r]
  }

  /** Every right node marked since `before` is matched, and its partner has
      only marked neighbours. */
  ghost predicate SearchedOut(g: Graph, right: seq<int>, before: seq<bool>, seen: seq<bool>)
    requires InRange(right, g.RhsSize(), g.LhsSize()) && |before| == |seen| == g.RhsSize()
  {
    forall r :: 0 <= r < |seen| && seen[r] && !before[r] ==>
           right[r] != UNUSED && NeighboursWithin(g, right[r], Marked(seen))
  }

  /** Marking one node and then searching out its partner. */
  lemma SearchedOutSteps(g: Graph, right: seq<int>, start: seq<bool>, before: seq<bool>, r: nat, inner: seq<bool>,
                        seen: seq<bool>)
    requires InRange(right, g.RhsSize(), g.LhsSize())
    requires |start| == |before| == |inner| == |seen| == g.RhsSize() && r < |before|
    requires inner == before[r := true]
    requires forall k :: 0 <= k < |seen| && inner[k] ==> seen[k]
    requires SearchedOut(g, right, start, before) && SearchedOut(g, right, inner, seen)
    requires right[r] != UNUSED && NeighboursWithin(g, right[r], Marked(seen))
    ensures SearchedOut(g, right, start, seen)
  {
    assert Marked(before) <= Marked(seen);
  }

  /** The state after flow was pushed out of l: every match but l's is kept as a
      match, l has a new partner, and its previous partner, if any, is stale. */
  ghost predicate Rerouted(g: Graph, left: seq<int>, right: seq<int>, left': seq<int>, right': seq<int>, l: nat)
    requires MutuallyReferent(g, left, right) && l < |left|
  {
    && |left'| == |left| && |right'| == |right|
    && left'[l] != UNUSED && left'[l] != left[l]
    && (if left[l] == UNUSED then MutuallyReferent(g, left', right')
        else right'[left[l]] == l && MutuallyReferent(g, left', right'[left[l] := UNUSED]))
    && (forall k :: 0 <= k < |left| && k != l ==> (left'[k] == UNUSED <==> left[k] == UNUSED))
    && (forall r :: 0 <= r < |right| && right'[r] == UNUSED ==> right[r] == UNUSED)
  }

  /** So mutual reference survives exactly if l had no partner before. */
  lemma ReferentIfWasUnused(g: Graph, left: seq<int>, right: seq<int>, left': seq<int>, right': seq<int>, l: nat)
    requires MutuallyReferent(g, left, right) && l < |left| && Rerouted(g, left, right, left', right', l)
    ensures MutuallyReferent(g, left', right') <==> left[l] == UNUSED
  {
  }

  lemma LinkUnused(g: Graph, left: seq<int>, right: seq<int>, l: nat, r: nat)
    requires MutuallyReferent(g, left, right) && l < |left| && r < |right| && g.HasEdge(l, r)
    requires left[l] == UNUSED && right[r] == UNUSED
    ensures MutuallyReferent(g, left[l := r], right[r := l])
  {
  }

  lemma Unlink(g: Graph, left: seq<int>, right: seq<int>, l: nat)
    requires MutuallyReferent(g, left, right) && l < |left| && left[l] != UNUSED
    ensures MutuallyReferent(g, left[l := UNUSED], right[left[l] := UNUSED])
  {
    var r := left[l];
    var left', right' := left[l := UNUSED], right[r := UNUSED];
    forall a, b | 0 <= a < |left| && 0 <= b < |right| ensures left'[a] == b <==> right'[b] == a {
      assert left[a] == r <==> right[r] == a;
      assert left[a] == b <==> right[b] == a;
    }
  }

  /** Linking l to r overwrites the stale entry that the search from r's old
      partner left behind. */
  lemma RerouteStep(g: Graph, left: seq<int>, right: seq<int>, left1: seq<int>, right1: seq<int>, l: nat, r: nat)
    requires MutuallyReferent(g, left, right) && l < |left| && r < |right|
    requires g.HasEdge(l, r) && left[l] != r
    requires if right[r] == UNUSED then left1 == left && right1 == right
             else Rerouted(g, left, right, left1, right1, right[r])
    requires left[l] != UNUSED ==> right1[left[l]] == l
    ensures Rerouted(g, left, right, left1[l := r], right1[r := l], l)
  {
    var freed := right1[r := UNUSED];
    assert MutuallyReferent(g, left1, freed) by {
      if right[r] == UNUSED {
        assert freed == right1;
      } else {
        assert left[right[r]] == r;
      }
    }
    var q := left[l];
    if q == UNUSED {
      LinkUnused(g, left1, freed, l, r);
      assert freed[r := l] == right1[r := l];
    } else {
      assert freed[q] == l;
      Unlink(g, left1, freed, l);
      LinkUnused(g, left1[l := UNUSED], freed[q := UNUSED], l, r);
      assert left1[l := UNUSED][l := r] == left1[l := r];
      assert freed[q := UNUSED][r := l] == right1[r := l][q := UNUSED];
    }
  }

  /** The left nodes below `tried` that stayed unmatched have all their
      neighbours in one closed region. */
  ghost predicate FailuresConfined(g: Graph, left: seq<int>, right: seq<int>, tried: nat, region: set<nat>)
    requires MutuallyReferent(g, left, right)
  {
    && Closed(g, right, region)
    && forall l: nat :: l < tried && l < |left| && left[l] == UNUSED ==> NeighboursWithin(g, l, region)
  }

  /** A failed search from scratch enlarges the region by what it marked. */
  lemma ConfinedAfterFailure(g: Graph, left: seq<int>, right: seq<int>, l: nat, region: set<nat>,
                        before: seq<bool>, seen: seq<bool>)
    requires MutuallyReferent(g, left, right) && FailuresConfined(g, left, right, l, region)
    requires |before| == |seen| == |right| && (forall r :: 0 <= r < |before| ==> !before[r])
    requires SearchedOut(g, right, before, seen)
    requires l < |left| && NeighboursWithin(g, l, Marked(seen))
    ensures FailuresConfined(g, left, right, l + 1, region + Marked(seen))
  {
  }

  /** The path avoids the right nodes marked. */
  ghost predicate Unseen(path: seq<nat>, seen: seq<bool>) {
    forall r :: r in path ==> r < |seen| && !seen[r]
  }

  /** A search fails only when every augmenting path runs into what was marked before it. */
  lemma {:induction false} FailedSearchHasNoPath(g: Graph, right: seq<int>, l: nat, before: seq<bool>, seen: seq<bool>,
                                                 path: seq<nat>)
    requires InRange(right, g.RhsSize(), g.LhsSize()) && |before| == |seen| == g.RhsSize()
    requires SearchedOut(g, right, before, seen) && Unseen(path, before)
    requires l < g.LhsSize() && NeighboursWithin(g, l, Marked(seen))
    ensures !AugmentingPath(g, right, l, path)
    decreases |path|
  {
    if AugmentingPath(g, right, l, path) {
      var r := path[0];
      assert r in path && r in Marked(seen);
      assert right[r] != UNUSED && NeighboursWithin(g, right[r], Marked(seen));
      hide SearchedOut, NeighboursWithin;
      assert forall q :: q in path[1..] ==> q in path;
      FailedSearchHasNoPath(g, right, right[r], before, seen, path[1..]);
    }
  }

  /** A successful search leaves every earlier failure confined: once a node
      cannot be matched, it never can. */
  lemma ConfinedAfterSuccess(g: Graph, left: seq<int>, right: seq<int>, left': seq<int>, right': seq<int>, l: nat,
                        region: set<nat>)
    requires MutuallyReferent(g, left, right) && FailuresConfined(g, left, right, l, region)
    requires l < |left| && left[l] == UNUSED && Rerouted(g, left, right, left', right', l)
    requires forall r: nat :: r in region ==> right'[r] == right[r]
    ensures FailuresConfined(g, left', right', l + 1, region)
  {
  }

  lemma ConfinedIsMaximum(g: Graph, left: seq<int>, right: seq<int>, region: set<nat>)
    requires MutuallyReferent(g, left, right) && FailuresConfined(g, left, right, |left|, region)
    ensures forall m :: IsMatching(g, m) ==> |m| <= |Flow(left)|
    ensures forall l: nat, path :: l < |left| && left[l] == UNUSED ==> !AugmentingPath(g, right, l, path)
  {
    forall m | IsMatching(g, m) ensures |m| <= |Flow(left)| {
      ClosedRegionBoundsMatchings(g, left, right, region, m);
    }
    forall l: nat, path | l < |left| && left[l] == UNUSED ensures !AugmentingPath(g, right, l, path) {
      ClosedBlocksPaths(g, right, region, l, path);
    }
  }

  /** The list holds exactly the edges of m, ordered by left node. */
  ghost predicate IsListOf(pairs: seq<Edge>, m: set<Edge>) {
    && (forall j, k :: 0 <= j < k < |pairs| ==> pairs[j].0 < pairs[k].0)
    && (forall e :: e in pairs <==> e in m)
  }

  lemma FlowGrows(left: seq<int>, r: nat)
    ensures Flow(left + [r]) == Flow(left) + {(|left|, r)}
  {
    forall e | e in Flow(left) + {(|left|, r)} ensures e in Flow(left + [r]) {
      assert (left + [r])[e.0] == e.1;
    }
  }

  lemma ListGrows(pairs: seq<Edge>, m: set<Edge>, e: Edge)
    requires IsListOf(pairs, m)
    requires forall k :: 0 <= k < |pairs| ==> pairs[k].0 < e.0
    ensures IsListOf(pairs + [e], m + {e})
  {
  }

  lemma {:induction false} ListCardinality(pairs: seq<Edge>, m: set<Edge>)
    requires IsListOf(pairs, m)
    ensures |m| == |pairs|
    decreases |pairs|
  {
    if pairs != [] {
      var n := |pairs| - 1;
      assert pairs == pairs[..n] + [pairs[n]];
      ListCardinality(pairs[..n], m - {pairs[n]});
    } else {
      assert forall e :: e in m ==> e in pairs;
    }
  }

  class MaxBipartiteMatchState {
    const graph: Graph
    const left: array<int>
    const right: array<int>

    constructor (g: Graph)
      ensures graph == g && Shaped() && fresh(left) && fresh(right)
      ensures left[..] == seq(g.LhsSize(), _ => UNUSED)
      ensures right[..] == seq(g.RhsSize(), _ => UNUSED)
    {
      graph := g;
      left := new int[g.LhsSize()](_ => UNUSED);
      right := new int[g.RhsSize()](_ => UNUSED);
    }

    ghost predicate Shaped() {
      left != right && left.Length == graph.LhsSize() && right.Length == graph.RhsSize()
    }

    ghost predicate Valid()
      reads left, right
    {
      Shaped() && MutuallyReferent(graph, left[..], right[..])
    }

    /**
      Depth-first search for a residual path from ilhs to the sink.

      While a successful search unwinds, the vectors are mutually referent except
      for one stale entry: the right node that ilhs was matched to before still
      names ilhs, until the caller overwrites it. `blocked` is any closed region;
      the search never changes anything inside one.
     */
    method TryAugment(ilhs: nat, seen: array<bool>, ghost blocked: set<nat>) returns (ok: bool)
      requires Valid() && ilhs < graph.LhsSize() && seen.Length == graph.RhsSize()
      requires left[ilhs] == UNUSED || seen[left[ilhs]]
      requires Closed(graph, right[..], blocked)
      modifies left, right, seen
      decreases Unmarked(seen[..])
      ensures forall r :: 0 <= r < seen.Length && old(seen[r]) ==> seen[r]
      // failure: nothing moved, and the newly searched region is closed
      ensures !ok ==> left[..] == old(left[..]) && right[..] == old(right[..])
      ensures !ok ==> NeighboursWithin(graph, ilhs, Marked(seen[..]))
      ensures !ok ==> SearchedOut(graph, right[..], old(seen[..]), seen[..])
      // success: exactly when an augmenting path avoids what was seen; ilhs is matched to a node newly seen,
      // no other node lost or gained a match, and exactly ilhs's old partner is stale
      ensures ok <==> exists path :: AugmentingPath(graph, old(right[..]), ilhs, path) && Unseen(path, old(seen[..]))
      ensures ok ==> Rerouted(graph, old(left[..]), old(right[..]), left[..], right[..], ilhs)
      ensures ok ==> forall r :: 0 <= r < seen.Length && old(seen[r]) ==> right[r] == old(right[r])
      // closed regions are impenetrable
      ensures forall r: nat :: r in blocked ==> right[r] == old(right[r])
      ensures ok ==> !NeighboursWithin(graph, ilhs, blocked)
    {
      hide MatchMatrix.HasEdge;
      ghost var L, R, S := left[..], right[..], seen[..];
      for irhs := 0 to graph.RhsSize()
        invariant left[..] == L && right[..] == R
        invariant forall r :: 0 <= r < seen.Length && S[r] ==> seen[r]
        invariant forall r: nat :: r < irhs && graph.HasEdge(ilhs, r) ==> seen[r]
        invariant SearchedOut(graph, R, S, seen[..])
      {
        if !seen[irhs] && graph.HasEdge(ilhs, irhs) {
          ghost var before := seen[..];
          seen[irhs] := true;
          ghost var inner := seen[..];
          var found := right[irhs] == UNUSED;
          if !found {
            var next := right[irhs];
            assert irhs in Unmarked(S) && irhs !in Unmarked(inner);
            found := TryAugment(next, seen, blocked);
            if found {
              ghost var path :| AugmentingPath(graph, R, next, path) && Unseen(path, inner);
              assert ([irhs] + path)[1..] == path;
              assert AugmentingPath(graph, R, ilhs, [irhs] + path) && Unseen([irhs] + path, S);
            } else {
              SearchedOutSteps(graph, R, S, before, irhs, inner, seen[..]);
            }
          } else {
            assert AugmentingPath(graph, R, ilhs, [irhs]) && Unseen([irhs], S);
          }
          if found {
            RerouteStep(graph, L, R, left[..], right[..], ilhs, irhs);
            left[ilhs] := irhs;
            right[irhs] := ilhs;
            return true;
          }
        }
      }
      forall path | Unseen(path, S) ensures !AugmentingPath(graph, R, ilhs, path) {
        FailedSearchHasNoPath(graph, R, ilhs, S, seen[..], path);
      }
      return false;
    }

    /** Tries every left node once and lists the resulting flow. */
    method Compute() returns (result: seq<Edge>)
      requires Valid()
      requires forall l :: 0 <= l < left.Length ==> left[l] == UNUSED
      modifies left, right
      ensures Valid()
      ensures IsListOf(result, Flow(left[..]))
      ensures forall m :: IsMatching(graph, m) ==> |m| <= |result|
      ensures forall l: nat, path :: l < left.Length && left[l] == UNUSED ==>
                                !AugmentingPath(graph, right[..], l, path)
    {
      var seen := new bool[graph.RhsSize()];
      // Everything that failed searches have marked so far.
      ghost var region: set<nat> := {};
      for ilhs := 0 to graph.LhsSize()
        invariant Valid()
        invariant forall l :: ilhs <= l < left.Length ==> left[l] == UNUSED
        invariant FailuresConfined(graph, left[..], right[..], ilhs, region)
      {
        assert left[ilhs] == UNUSED; // the check in the loop never fires
        forall r | 0 <= r < seen.Length {
          seen[r] := false;
        }
        ghost var L, R, cleared := left[..], right[..], seen[..];
        var found := TryAugment(ilhs, seen, region);
        if found {
          ConfinedAfterSuccess(graph, L, R, left[..], right[..], ilhs, region);
        } else {
          ConfinedAfterFailure(graph, left[..], right[..], ilhs, region, cleared, seen[..]);
          region := region + Marked(seen[..]);
        }
      }
      result := ListFlow();
      ConfinedIsMaximum(graph, left[..], right[..], region);
      ListCardinality(result, Flow(left[..]));
    }

    method ListFlow() returns (result: seq<Edge>)
      requires Valid()
      ensures IsListOf(result, Flow(left[..]))
    {
      result := [];
      for ilhs: nat := 0 to left.Length
        invariant IsListOf(result, Flow(left[..ilhs]))
      {
        var irhs := left[ilhs];
        assert left[..ilhs + 1] == left[..ilhs] + [irhs];
        if irhs != UNUSED {
          FlowGrows(left[..ilhs], irhs);
          assert forall k :: 0 <= k < |result| ==> result[k] in Flow(left[..ilhs]);
          ListGrows(result, Flow(left[..ilhs]), (ilhs, irhs));
          result := result + [(ilhs, irhs)];
        } else {
          assert Flow(left[..ilhs + 1]) == Flow(left[..ilhs]);
        }
      }
      assert left[..left.Length] == left[..];
    }
  }

  /** A maximum matching, as a list ordered by element. */
  method FindMaxBipartiteMatching(g: Graph) returns (pairs: seq<Edge>)
    ensures exists m :: IsMatching(g, m) && IsListOf(pairs, m) && |m| == |pairs|
    ensures forall m :: IsMatching(g, m) ==> |m| <= |pairs|
  {
    var state := new MaxBipartiteMatchState(g);
    pairs := state.Compute();
    FlowIsMatching(g, state.left[..], state.right[..]);
    ListCardinality(pairs, Flow(state.left[..]));
  }
}
