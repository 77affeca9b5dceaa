/**
  The compressed-row adjacency of a triple list and the hop queries on it, against
  the triple list itself.
 */
module CsrGraph {
  import opened IdMaps
  import opened SharedTypes

  datatype Edge = Edge(tail: nat, relation: nat)

  // ---- what the triple list says ----------------------------------------------------------

  predicate Picks(filter: Option<nat>, relation: nat) {
    filter.None? || filter.value == relation
  }

  /** The edges out of a node, in the order of the list, with the relation asked for. */
  function Select(triples: seq<Triple>, node: nat, filter: Option<nat>): (edges: seq<Edge>) {
    if triples == [] then []
    else
      var last := triples[|triples| - 1];
      Select(triples[..|triples| - 1], node, filter) +
      (if last.head == node && Picks(filter, last.relation) then [Edge(last.tail, last.relation)] else [])
  }

  function Degree(triples: seq<Triple>, node: nat): nat {
    |Select(triples, node, None)|
  }

  lemma SelectNext(triples: seq<Triple>, k: nat, node: nat, filter: Option<nat>)
    requires k < |triples|
    ensures Select(triples[..k + 1], node, filter) ==
            Select(triples[..k], node, filter) +
            (if triples[k].head == node && Picks(filter, triples[k].relation)
             then [Edge(triples[k].tail, triples[k].relation)] else [])
  {
    assert triples[..k + 1][..k] == triples[..k];
  }

  // ---- the compressed form -------------------------------------------------------------------

  function Zip(tails: seq<nat>, relations: seq<nat>): (edges: seq<Edge>)
    requires |tails| == |relations|
    ensures |edges| == |tails|
  {
    seq(|tails|, i requires 0 <= i < |tails| => Edge(tails[i], relations[i]))
  }

  /** The pointers delimit rows of the two index lists. */
  ghost predicate Delimits(rowPtr: seq<nat>, n: nat, total: nat) {
    && |rowPtr| == n + 1 && rowPtr[0] == 0 && rowPtr[n] == total
    && forall i, j :: 0 <= i <= j <= n ==> rowPtr[i] <= rowPtr[j]
  }

  ghost function RowOf(i: nat, rowPtr: seq<nat>, colIdx: seq<nat>, relIdx: seq<nat>): seq<Edge>
    requires i + 1 < |rowPtr| && rowPtr[i] <= rowPtr[i + 1] <= |colIdx| == |relIdx|
  {
    Zip(colIdx[rowPtr[i]..rowPtr[i + 1]], relIdx[rowPtr[i]..rowPtr[i + 1]])
  }

  /** Every row lists exactly the edges out of its node, in the order of the triples. */
  ghost predicate IsCsr(rowPtr: seq<nat>, colIdx: seq<nat>, relIdx: seq<nat>, triples: seq<Triple>, n: nat) {
    && |colIdx| == |relIdx| && Delimits(rowPtr, n, |colIdx|)
    && forall i :: 0 <= i < n ==> RowOf(i, rowPtr, colIdx, relIdx) == Select(triples, i, None)
  }

  /** How many triples start below node n. */
  function HeadsBelow(triples: seq<Triple>, n: nat): nat {
    if triples == [] then 0
    else HeadsBelow(triples[..|triples| - 1], n) + (if triples[|triples| - 1].head < n then 1 else 0)
  }

  lemma {:induction false} HeadsBelowNext(triples: seq<Triple>, n: nat)
    ensures HeadsBelow(triples, n + 1) == HeadsBelow(triples, n) + Degree(triples, n)
  {
    if triples != [] {
      HeadsBelowNext(triples[..|triples| - 1], n);
    }
  }

  lemma {:induction false} NoHeadsBelowZero(triples: seq<Triple>)
    ensures HeadsBelow(triples, 0) == 0
  {
    if triples != [] {
      NoHeadsBelowZero(triples[..|triples| - 1]);
    }
  }

  /** All triples are held exactly when all heads are in range. */
  lemma {:induction false} AllHeadsInRange(triples: seq<Triple>, n: nat)
    ensures HeadsBelow(triples, n) <= |triples|
    ensures HeadsBelow(triples, n) == |triples| <==> forall t :: t in triples ==> t.head < n
  {
    if triples != [] {
      var front, last := triples[..|triples| - 1], triples[|triples| - 1];
      AllHeadsInRange(front, n);
      assert triples == front + [last];
    }
  }

  // ---- building it ------------------------------------------------------------------------------

  function Adjacent(adj: map<nat, seq<Edge>>, i: nat): seq<Edge> {
    if i in adj then adj[i] else []
  }

  method BuildAdjacency(triples: seq<Triple>) returns (adj: map<nat, seq<Edge>>)
    ensures forall i: nat :: Adjacent(adj, i) == Select(triples, i, None)
  {
    adj := map[];
    for k := 0 to |triples|
      invariant forall i: nat :: Adjacent(adj, i) == Select(triples[..k], i, None)
    {
      var t := triples[k];
      ghost var before := adj;
      adj := adj[t.head := Adjacent(adj, t.head) + [Edge(t.tail, t.relation)]];
      forall i: nat ensures Adjacent(adj, i) == Select(triples[..k + 1], i, None) {
        SelectNext(triples, k, i, None);
        assert Adjacent(before, i) == Select(triples[..k], i, None);
      }
    }
    assert triples[..|triples|] == triples;
  }

  function Tails(edges: seq<Edge>): (tails: seq<nat>)
    ensures |tails| == |edges|
  {
    seq(|edges|, i requires 0 <= i < |edges| => edges[i].tail)
  }

  function Relations(edges: seq<Edge>): (relations: seq<nat>)
    ensures |relations| == |edges|
  {
    seq(|edges|, i requires 0 <= i < |edges| => edges[i].relation)
  }

  lemma RowAppended(rowPtr: seq<nat>, colIdx: seq<nat>, relIdx: seq<nat>, triples: seq<Triple>, n: nat,
                    edges: seq<Edge>)
    requires IsCsr(rowPtr, colIdx, relIdx, triples, n) && edges == Select(triples, n, None)
    ensures var col := colIdx + Tails(edges);
            IsCsr(rowPtr + [|col|], col, relIdx + Relations(edges), triples, n + 1)
  {
    var col, rel := colIdx + Tails(edges), relIdx + Relations(edges);
    var ptr := rowPtr + [|col|];
    forall i | 0 <= i <= n ensures RowOf(i, ptr, col, rel) == Select(triples, i, None) {
      if i < n {
        assert col[ptr[i]..ptr[i + 1]] == colIdx[rowPtr[i]..rowPtr[i + 1]];
        assert rel[ptr[i]..ptr[i + 1]] == relIdx[rowPtr[i]..rowPtr[i + 1]];
        assert RowOf(i, rowPtr, colIdx, relIdx) == Select(triples, i, None);
      } else {
        assert col[ptr[n]..ptr[n + 1]] == Tails(edges) && rel[ptr[n]..ptr[n + 1]] == Relations(edges);
        assert Zip(Tails(edges), Relations(edges)) == edges;
      }
    }
  }

  method BuildCsr(triples: seq<Triple>, numEntities: nat) returns (rowPtr: seq<nat>, colIdx: seq<nat>, relIdx: seq<nat>)
    ensures IsCsr(rowPtr, colIdx, relIdx, triples, numEntities)
    ensures rowPtr[numEntities] == |triples| <==> forall t :: t in triples ==> t.head < numEntities
  {
    var adj := BuildAdjacency(triples);
    rowPtr, colIdx, relIdx := [0], [], [];
    NoHeadsBelowZero(triples);
    for i := 0 to numEntities
      invariant IsCsr(rowPtr, colIdx, relIdx, triples, i) && |colIdx| == HeadsBelow(triples, i)
    {
      var neighbors := Adjacent(adj, i);
      RowAppended(rowPtr, colIdx, relIdx, triples, i, neighbors);
      HeadsBelowNext(triples, i);
      colIdx := colIdx + Tails(neighbors);
      relIdx := relIdx + Relations(neighbors);
      rowPtr := rowPtr + [|colIdx|];
    }
    AllHeadsInRange(triples, numEntities);
  }

  // ---- one hop --------------------------------------------------------------------------------------

  /** The entries where the mask is set. */
  function Masked(values: seq<nat>, mask: seq<bool>): seq<nat>
    requires |values| == |mask|
  {
    if values == [] then []
    else
      var n := |values| - 1;
      Masked(values[..n], mask[..n]) + (if mask[n] then [values[n]] else [])
  }

  function OneHop(source: nat, rowPtr: seq<nat>, colIdx: seq<nat>, relIdx: seq<nat>,
                  filter: Option<nat>): (hop: (seq<nat>, seq<nat>))
    requires source + 1 < |rowPtr| && rowPtr[source] <= rowPtr[source + 1] <= |colIdx| == |relIdx|
  {
    var start, end := rowPtr[source], rowPtr[source + 1];
    var neighbors, relations := colIdx[start..end], relIdx[start..end];
    match filter
    case None => (neighbors, relations)
    case Some(wanted) =>
      var mask := seq(|relations|, i requires 0 <= i < |relations| => relations[i] == wanted);
      (Masked(neighbors, mask), Masked(relations, mask))
  }

  function WithRelation(edges: seq<Edge>, wanted: nat): seq<Edge> {
    if edges == [] then []
    else
      var n := |edges| - 1;
      WithRelation(edges[..n], wanted) + (if edges[n].relation == wanted then [edges[n]] else [])
  }

  lemma {:induction false} MaskedWithRelation(tails: seq<nat>, relations: seq<nat>, mask: seq<bool>, wanted: nat)
    requires |tails| == |relations| == |mask|
    requires forall i :: 0 <= i < |mask| ==> (mask[i] <==> relations[i] == wanted)
    ensures |Masked(tails, mask)| == |Masked(relations, mask)|
    ensures Zip(Masked(tails, mask), Masked(relations, mask)) == WithRelation(Zip(tails, relations), wanted)
    decreases |tails|
  {
    if tails != [] {
      var n := |tails| - 1;
      MaskedWithRelation(tails[..n], relations[..n], mask[..n], wanted);
      assert Zip(tails, relations)[..n] == Zip(tails[..n], relations[..n]);
    }
  }

  lemma {:induction false} SelectWithRelation(triples: seq<Triple>, node: nat, wanted: nat)
    ensures WithRelation(Select(triples, node, None), wanted) == Select(triples, node, Some(wanted))
  {
    if triples != [] {
      var front := triples[..|triples| - 1];
      SelectWithRelation(front, node, wanted);
      var edges := Select(triples, node, None);
      if triples[|triples| - 1].head == node {
        assert edges[..|edges| - 1] == Select(front, node, None);
      } else {
        assert edges == Select(front, node, None);
      }
    }
  }

  /** One hop gives what filtering the triple list gives. */
  lemma OneHopIsFilter(source: nat, rowPtr: seq<nat>, colIdx: seq<nat>, relIdx: seq<nat>, filter: Option<nat>,
                       triples: seq<Triple>, n: nat)
    requires IsCsr(rowPtr, colIdx, relIdx, triples, n) && source < n
    ensures var (neighbors, relations) := OneHop(source, rowPtr, colIdx, relIdx, filter);
            |neighbors| == |relations| && Zip(neighbors, relations) == Select(triples, source, filter)
  {
    var start, end := rowPtr[source], rowPtr[source + 1];
    var neighbors, relations := colIdx[start..end], relIdx[start..end];
    assert RowOf(source, rowPtr, colIdx, relIdx) == Select(triples, source, None);
    if filter.Some? {
      var mask := seq(|relations|, i requires 0 <= i < |relations| => relations[i] == filter.value);
      MaskedWithRelation(neighbors, relations, mask, filter.value);
      SelectWithRelation(triples, source, filter.value);
    }
  }

  // ---- two hops ---------------------------------------------------------------------------------------

  lemma {:induction false} SelectedTails(triples: seq<Triple>, node: nat, filter: Option<nat>, n: nat)
    requires forall t :: t in triples ==> t.tail < n
    ensures forall k :: 0 <= k < |Select(triples, node, filter)| ==> Select(triples, node, filter)[k].tail < n
  {
    if triples != [] {
      SelectedTails(triples[..|triples| - 1], node, filter, n);
    }
  }

  /** The keys are the distinct neighbours, each with all its edges. */
  method TwoHop(source: nat, rowPtr: seq<nat>, colIdx: seq<nat>, relIdx: seq<nat>, filter: Option<nat>,
                ghost triples: seq<Triple>, ghost n: nat)
    returns (results: map<nat, seq<Edge>>)
    requires IsCsr(rowPtr, colIdx, relIdx, triples, n) && source < n
    requires forall t :: t in triples ==> t.tail < n
    ensures forall node :: node in results <==>
            exists t :: t in triples && t.head == source && Picks(filter, t.relation) && t.tail == node
    ensures forall node :: node in results ==> results[node] == Select(triples, node, None)
  {
    OneHopIsFilter(source, rowPtr, colIdx, relIdx, filter, triples, n);
    SelectedTails(triples, source, filter, n);
    var (nodes, relations) := OneHop(source, rowPtr, colIdx, relIdx, filter);
    ghost var edges := Select(triples, source, filter);
    results := map[];
    for k := 0 to |nodes|
      invariant forall node :: node in results <==> node in nodes[..k]
      invariant forall node :: node in results ==> results[node] == Select(triples, node, None)
    {
      var node := nodes[k];
      assert edges[k].tail == node;
      OneHopIsFilter(node, rowPtr, colIdx, relIdx, None, triples, n);
      var (nodes2, relations2) := OneHop(node, rowPtr, colIdx, relIdx, None);
      results := results[node := Zip(nodes2, relations2)];
    }
    forall node
      ensures node in nodes <==>
              exists t :: t in triples && t.head == source && Picks(filter, t.relation) && t.tail == node
    {
      SelectedEdges(triples, source, filter, node);
      assert node in nodes <==> exists e :: e in edges && e.tail == node by {
        assert forall k :: 0 <= k < |nodes| ==> edges[k].tail == nodes[k];
      }
    }
    assert nodes[..|nodes|] == nodes;
  }

  lemma {:induction false} SelectedEdges(triples: seq<Triple>, source: nat, filter: Option<nat>, node: nat)
    ensures (exists e :: e in Select(triples, source, filter) && e.tail == node) <==>
            exists t :: t in triples && t.head == source && Picks(filter, t.relation) && t.tail == node
  {
    if triples != [] {
      var front, last := triples[..|triples| - 1], triples[|triples| - 1];
      SelectedEdges(front, source, filter, node);
      assert triples == front + [last];
      var rest := Select(front, source, filter);
      if last.head == source && Picks(filter, last.relation) {
        assert Edge(last.tail, last.relation) in Select(triples, source, filter);
      }
      assert forall e :: e in rest ==> e in Select(triples, source, filter);
    }
  }

  // ---- counting accesses --------------------------------------------------------------------------------

  datatype Profile = Profile(degree: nat, totalAccesses: nat, sequentialReads: nat, randomReads: nat)

  function ProfileMemoryAccess(source: nat, rowPtr: seq<nat>): Profile
    requires source + 1 < |rowPtr| && rowPtr[source] <= rowPtr[source + 1]
  {
    var degree := rowPtr[source + 1] - rowPtr[source];
    Profile(degree, 2 + degree * 2, degree * 2, 2)
  }

  lemma ProfileCountsDegree(source: nat, rowPtr: seq<nat>, colIdx: seq<nat>, relIdx: seq<nat>,
                        triples: seq<Triple>, n: nat)
    requires IsCsr(rowPtr, colIdx, relIdx, triples, n) && source < n
    ensures ProfileMemoryAccess(source, rowPtr).degree == Degree(triples, source)
  {
    assert RowOf(source, rowPtr, colIdx, relIdx) == Select(triples, source, None);
  }

  /** The pairs of consecutive triples, the first of them among the first m, that lead out
      of the source in two steps; a pair of positions each. */
  ghost function Walks(triples: seq<Triple>, source: nat, m: nat): (walks: set<(nat, nat)>)
    requires m <= |triples|
  {
    set i: nat, j: nat | i < m && j < |triples| && triples[i].head == source &&
      triples[j].head == triples[i].tail :: (i, j)
  }

  ghost function OutOf(triples: seq<Triple>, node: nat, m: nat): (positions: set<nat>)
    requires m <= |triples|
  {
    set j: nat | j < m && triples[j].head == node
  }

  lemma {:induction false} OutOfSize(triples: seq<Triple>, node: nat, m: nat)
    requires m <= |triples|
    ensures |OutOf(triples, node, m)| == Degree(triples[..m], node)
  {
    if m == 0 {
      assert OutOf(triples, node, 0) == {};
    } else {
      OutOfSize(triples, node, m - 1);
      SelectNext(triples, m - 1, node, None);
      OutOfNext(triples, node, m);
    }
  }

  lemma OutOfNext(triples: seq<Triple>, node: nat, m: nat)
    requires 0 < m <= |triples|
    ensures |OutOf(triples, node, m)| == |OutOf(triples, node, m - 1)| + (if triples[m - 1].head == node then 1 else 0)
  {
    var last := if triples[m - 1].head == node then {m - 1} else {};
    assert OutOf(triples, node, m) == OutOf(triples, node, m - 1) + last;
  }

  ghost function Paired(i: nat, s: set<nat>): (pairs: set<(nat, nat)>) {
    set j: nat | j in s :: (i, j)
  }

  lemma {:induction false} PairsSize(i: nat, s: set<nat>)
    ensures |Paired(i, s)| == |s|
    decreases s
  {
    if s == {} {
      assert Paired(i, s) == {};
    } else {
      var k: nat :| k in s;
      PairsSize(i, s - {k});
      assert Paired(i, s) == Paired(i, s - {k}) + {(i, k)};
      assert (i, k) !in Paired(i, s - {k});
    }
  }

  lemma WalksNext(triples: seq<Triple>, source: nat, m: nat)
    requires m < |triples|
    ensures |Walks(triples, source, m + 1)| ==
            |Walks(triples, source, m)| + (if triples[m].head == source then Degree(triples, triples[m].tail) else 0)
  {
    if triples[m].head == source {
      var seconds := OutOf(triples, triples[m].tail, |triples|);
      assert Walks(triples, source, m + 1) == Walks(triples, source, m) + Paired(m, seconds);
      assert Walks(triples, source, m) !! Paired(m, seconds);
      PairsSize(m, seconds);
      OutOfSize(triples, triples[m].tail, |triples|);
      assert triples[..|triples|] == triples;
    } else {
      assert Walks(triples, source, m + 1) == Walks(triples, source, m);
    }
  }

  function SumOfDegrees(triples: seq<Triple>, nodes: seq<Edge>): nat {
    if nodes == [] then 0
    else SumOfDegrees(triples, nodes[..|nodes| - 1]) + Degree(triples, nodes[|nodes| - 1].tail)
  }

  /** Adding up the degrees of the neighbours, each as often as it is one, counts the walks. */
  lemma {:induction false} WalksAreCounted(triples: seq<Triple>, source: nat, m: nat)
    requires m <= |triples|
    ensures SumOfDegrees(triples, Select(triples[..m], source, None)) == |Walks(triples, source, m)|
  {
    if m == 0 {
      assert Walks(triples, source, 0) == {};
    } else {
      hide Walks, SumOfDegrees;
      WalksAreCounted(triples, source, m - 1);
      WalksNext(triples, source, m - 1);
      var front, t := Select(triples[..m - 1], source, None), triples[m - 1];
      SelectNext(triples, m - 1, source, None);
      SumAppended(triples, front, Edge(t.tail, t.relation));
      assert front + [] == front;
    }
  }

  lemma SumAppended(triples: seq<Triple>, edges: seq<Edge>, edge: Edge)
    ensures SumOfDegrees(triples, edges + [edge]) == SumOfDegrees(triples, edges) + Degree(triples, edge.tail)
  {
    assert (edges + [edge])[..|edges|] == edges;
  }

  /** Two row pointers for the source and for each of its edges, and two index entries for
      each of its edges and for each walk of two steps. */
  method ProfileTwoHop(source: nat, rowPtr: seq<nat>, colIdx: seq<nat>, relIdx: seq<nat>,
                       ghost triples: seq<Triple>, ghost n: nat)
    returns (total: Profile)
    requires IsCsr(rowPtr, colIdx, relIdx, triples, n) && source < n
    requires forall t :: t in triples ==> t.tail < n
    ensures total.degree == Degree(triples, source)
    ensures total.randomReads == 2 * (1 + Degree(triples, source))
    ensures total.sequentialReads == 2 * (Degree(triples, source) + |Walks(triples, source, |triples|)|)
    ensures total.totalAccesses == total.randomReads + total.sequentialReads
  {
    OneHopIsFilter(source, rowPtr, colIdx, relIdx, None, triples, n);
    SelectedTails(triples, source, None, n);
    ProfileCountsDegree(source, rowPtr, colIdx, relIdx, triples, n);
    ghost var edges := Select(triples, source, None);
    var (nodes, relations) := OneHop(source, rowPtr, colIdx, relIdx, None);
    total := ProfileMemoryAccess(source, rowPtr);
    for k := 0 to |nodes|
      invariant total.degree == |edges| && total.randomReads == 2 * (1 + k)
      invariant total.sequentialReads == 2 * (|edges| + SumOfDegrees(triples, edges[..k]))
      invariant total.totalAccesses == total.randomReads + total.sequentialReads
    {
      assert edges[k].tail == nodes[k];
      ProfileCountsDegree(nodes[k], rowPtr, colIdx, relIdx, triples, n);
      assert edges[..k + 1][..k] == edges[..k];
      var p := ProfileMemoryAccess(nodes[k], rowPtr);
      total := total.(totalAccesses := total.totalAccesses + p.totalAccesses,
                      sequentialReads := total.sequentialReads + p.sequentialReads,
                      randomReads := total.randomReads + p.randomReads);
    }
    assert edges[..|edges|] == edges && triples[..|triples|] == triples;
    WalksAreCounted(triples, source, |triples|);
  }
}
