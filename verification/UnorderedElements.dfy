/**
  The decision procedure behind UnorderedElementsAre, IsSupersetOf and
  IsSubsetOf: a quick necessary test on the connectivity matrix followed by a
  maximum matching.
 */
module UnorderedElements {
  import opened FiniteSets
  import opened BipartiteGraphs
  import BipartiteMatching

  datatype Require = Superset | Subset | ExactMatch {
    predicate HasSuperset() {
      Superset? || ExactMatch?
    }

    predicate HasSubset() {
      Subset? || ExactMatch?
    }
  }

  // ---- what is required of the elements and matchers -------------------------

  /** f gives every matcher an element of its own that it matches. */
  ghost predicate AssignsMatchers(g: Graph, f: seq<nat>) {
    && |f| == g.RhsSize()
    && (forall r :: 0 <= r < |f| ==> IsEdge(g, (f[r], r)))
    && (forall r, s :: 0 <= r < s < |f| ==> f[r] != f[s])
  }

  /** f gives every element a matcher of its own that matches it. */
  ghost predicate AssignsElements(g: Graph, f: seq<nat>) {
    && |f| == g.LhsSize()
    && (forall l :: 0 <= l < |f| ==> IsEdge(g, (l, f[l])))
    && (forall l, k :: 0 <= l < k < |f| ==> f[l] != f[k])
  }

  /** The promise of the three matchers: an injection of the matchers into the
      elements, of the elements into the matchers, or a bijection. */
  ghost predicate Meets(g: Graph, require: Require) {
    match require
    case Superset => exists f :: AssignsMatchers(g, f)
    case Subset => exists f :: AssignsElements(g, f)
    case ExactMatch => g.LhsSize() == g.RhsSize() && exists f :: AssignsElements(g, f)
  }

  // ---- matchings and assignments ---------------------------------------------

  ghost function Lefts(m: set<Edge>): set<nat> {
    set e | e in m :: e.0
  }

  ghost function Rights(m: set<Edge>): set<nat> {
    set e | e in m :: e.1
  }

  lemma {:induction false} EndpointCounts(g: Graph, m: set<Edge>)
    requires IsMatching(g, m)
    ensures |Lefts(m)| == |m| && |Rights(m)| == |m|
    decreases m
  {
    if m != {} {
      hide IsEdge;
      var e :| e in m;
      EndpointCounts(g, m - {e});
      assert Lefts(m) == Lefts(m - {e}) + {e.0};
      assert Rights(m) == Rights(m - {e}) + {e.1};
    }
  }

  /** A matching is no larger than either side, and one as large as a side covers it. */
  lemma MatchingCovers(g: Graph, m: set<Edge>)
    requires IsMatching(g, m)
    ensures |m| <= g.LhsSize() && |m| <= g.RhsSize()
    ensures |m| == g.LhsSize() ==> Lefts(m) == Below(g.LhsSize())
    ensures |m| == g.RhsSize() ==> Rights(m) == Below(g.RhsSize())
  {
    EndpointCounts(g, m);
    BelowCardinality(g.LhsSize());
    BelowCardinality(g.RhsSize());
    SubsetBound(Lefts(m), Below(g.LhsSize()));
    SubsetBound(Rights(m), Below(g.RhsSize()));
  }

  ghost function EdgeFromLeft(m: set<Edge>, l: nat): (e: Edge)
    requires l in Lefts(m)
    ensures e in m && e.0 == l
  {
    var e :| e in m && e.0 == l;
    e
  }

  ghost function EdgeToRight(m: set<Edge>, r: nat): (e: Edge)
    requires r in Rights(m)
    ensures e in m && e.1 == r
  {
    var e :| e in m && e.1 == r;
    e
  }

  lemma CoverGivesMatchers(g: Graph, m: set<Edge>)
    requires IsMatching(g, m) && |m| == g.RhsSize()
    ensures exists f :: AssignsMatchers(g, f)
  {
    MatchingCovers(g, m);
    var f := seq(g.RhsSize(), r requires 0 <= r < g.RhsSize() => EdgeToRight(m, r).0);
    assert forall r :: 0 <= r < |f| ==> (f[r], r) == EdgeToRight(m, r);
    assert AssignsMatchers(g, f);
  }

  lemma CoverGivesElements(g: Graph, m: set<Edge>)
    requires IsMatching(g, m) && |m| == g.LhsSize()
    ensures exists f :: AssignsElements(g, f)
  {
    MatchingCovers(g, m);
    var f := seq(g.LhsSize(), l requires 0 <= l < g.LhsSize() => EdgeFromLeft(m, l).1);
    assert forall l :: 0 <= l < |f| ==> (l, f[l]) == EdgeFromLeft(m, l);
    assert AssignsElements(g, f);
  }

  lemma MatchersGiveCover(g: Graph, f: seq<nat>) returns (m: set<Edge>)
    requires AssignsMatchers(g, f)
    ensures IsMatching(g, m) && |m| == g.RhsSize()
  {
    m := set r: nat | r < |f| :: (f[r], r);
    assert IsMatching(g, m);
    EndpointCounts(g, m);
    BelowCardinality(g.RhsSize());
    forall r | r in Below(g.RhsSize()) ensures r in Rights(m) {
      assert (f[r], r) in m;
    }
    assert Rights(m) == Below(g.RhsSize());
  }

  lemma ElementsGiveCover(g: Graph, f: seq<nat>) returns (m: set<Edge>)
    requires AssignsElements(g, f)
    ensures IsMatching(g, m) && |m| == g.LhsSize()
  {
    m := set l: nat | l < |f| :: (l, f[l]);
    assert IsMatching(g, m);
    EndpointCounts(g, m);
    BelowCardinality(g.LhsSize());
    forall l | l in Below(g.LhsSize()) ensures l in Lefts(m) {
      assert (l, f[l]) in m;
    }
    assert Lefts(m) == Below(g.LhsSize());
  }

  /** The size of a maximum matching decides what is required. */
  lemma MaximumDecides(g: Graph, require: Require, best: set<Edge>)
    requires IsMatching(g, best)
    requires forall m :: IsMatching(g, m) ==> |m| <= |best|
    ensures Meets(g, require) <==>
            (require.HasSuperset() ==> |best| >= g.RhsSize()) && (require.HasSubset() ==> |best| >= g.LhsSize())
  {
    MatchingCovers(g, best);
    if Meets(g, require) {
      if require.Superset? {
        var f :| AssignsMatchers(g, f);
        var m := MatchersGiveCover(g, f);
      } else {
        var f :| AssignsElements(g, f);
        var m := ElementsGiveCover(g, f);
      }
    }
    if require.HasSuperset() && |best| >= g.RhsSize() {
      CoverGivesMatchers(g, best);
    }
    if require.HasSubset() && |best| >= g.LhsSize() {
      CoverGivesElements(g, best);
    }
  }

  method FindPairing(require: Require, matrix: Graph) returns (ok: bool)
    ensures ok <==> Meets(matrix, require)
  {
    var matches := BipartiteMatching.FindMaxBipartiteMatching(matrix);
    ghost var best :| IsMatching(matrix, best) && BipartiteMatching.IsListOf(matches, best) && |best| == |matches|;
    MaximumDecides(matrix, require, best);
    var maxFlow := |matches|;
    if require.HasSuperset() && maxFlow < matrix.RhsSize() {
      return false;
    }
    if require.HasSubset() && maxFlow < matrix.LhsSize() {
      return false;
    }
    return true;
  }

  // ---- the quick test ----------------------------------------------------------

  ghost predicate ElementTouched(g: Graph, l: nat) {
    exists r: nat :: IsEdge(g, (l, r))
  }

  ghost predicate MatcherTouched(g: Graph, r: nat) {
    exists l: nat :: IsEdge(g, (l, r))
  }

  /** The success criteria of the quick test. */
  ghost predicate EverythingTouched(g: Graph, require: Require) {
    && (require.ExactMatch? ==> g.LhsSize() == g.RhsSize())
    && (require.HasSuperset() ==> forall r: nat :: r < g.RhsSize() ==> MatcherTouched(g, r))
    && (require.HasSubset() ==> forall l: nat :: l < g.LhsSize() ==> ElementTouched(g, l))
  }

  method VerifyMatchMatrix(require: Require, matrix: Graph) returns (result: bool)
    ensures result <==> EverythingTouched(matrix, require)
  {
    if matrix.LhsSize() == 0 && matrix.RhsSize() == 0 {
      return true;
    }
    result := !(require.ExactMatch? && matrix.LhsSize() != matrix.RhsSize());
    var elementMatched := new bool[matrix.LhsSize()](_ => false);
    var matcherMatched := new bool[matrix.RhsSize()](_ => false);
    for ilhs := 0 to matrix.LhsSize()
      invariant forall l: nat :: l < elementMatched.Length ==>
                (elementMatched[l] <==> l < ilhs && ElementTouched(matrix, l))
      invariant forall r: nat :: r < matcherMatched.Length ==>
                (matcherMatched[r] <==> exists l: nat :: l < ilhs && IsEdge(matrix, (l, r)))
    {
      for irhs := 0 to matrix.RhsSize()
        invariant forall l: nat :: l < elementMatched.Length && l != ilhs ==>
                  (elementMatched[l] <==> l < ilhs && ElementTouched(matrix, l))
        invariant elementMatched[ilhs] <==> exists r: nat :: r < irhs && IsEdge(matrix, (ilhs, r))
        invariant forall r: nat :: r < matcherMatched.Length ==>
                             (matcherMatched[r] <==>
                               exists l: nat :: (l < ilhs || (l == ilhs && r < irhs)) && IsEdge(matrix, (l, r)))
      {
        var matched := matrix.HasEdge(ilhs, irhs);
        assert matched <==> IsEdge(matrix, (ilhs, irhs));
        elementMatched[ilhs] := elementMatched[ilhs] || matched;
        matcherMatched[irhs] := matcherMatched[irhs] || matched;
      }
    }
    assert forall r: nat :: r < matcherMatched.Length ==> (matcherMatched[r] <==> MatcherTouched(matrix, r));
    ghost var sizesAgree := result;
    if require.HasSuperset() {
      for mi := 0 to matcherMatched.Length
        invariant result <==> sizesAgree && forall r: nat :: r < mi ==> MatcherTouched(matrix, r)
      {
        if !matcherMatched[mi] {
          result := false;
        }
      }
    }
    ghost var soFar := result;
    if require.HasSubset() {
      for ei := 0 to elementMatched.Length
        invariant result <==> soFar && forall l: nat :: l < ei ==> ElementTouched(matrix, l)
      {
        if !elementMatched[ei] {
          result := false;
        }
      }
    }
  }

  /** The quick test never rejects a matrix that meets what is required. */
  lemma QuickTestIsNecessary(g: Graph, require: Require)
    requires Meets(g, require)
    ensures EverythingTouched(g, require)
  {
    if !require.Superset? {
      var f :| AssignsElements(g, f);
      forall l: nat | l < g.LhsSize() ensures ElementTouched(g, l) {
        assert IsEdge(g, (l, f[l]));
      }
      if require.ExactMatch? {
        var m := ElementsGiveCover(g, f);
        CoverGivesMatchers(g, m);
      }
    }
    if require.HasSuperset() {
      var f :| AssignsMatchers(g, f);
      forall r: nat | r < g.RhsSize() ensures MatcherTouched(g, r) {
        assert IsEdge(g, (f[r], r));
      }
    }
  }

  // ---- from the elements and matchers to the answer ----------------------------------------

  /** f gives every matcher an element of its own that it matches. */
  ghost predicate PicksElements<E, M>(elements: seq<E>, matchers: seq<M>, matches: (M, E) -> bool, f: seq<nat>) {
    && |f| == |matchers|
    && (forall r :: 0 <= r < |f| ==> f[r] < |elements| && matches(matchers[r], elements[f[r]]))
    && (forall r, s :: 0 <= r < s < |f| ==> f[r] != f[s])
  }

  /** f gives every element a matcher of its own that matches it. */
  ghost predicate PicksMatchers<E, M>(elements: seq<E>, matchers: seq<M>, matches: (M, E) -> bool, f: seq<nat>) {
    && |f| == |elements|
    && (forall l :: 0 <= l < |f| ==> f[l] < |matchers| && matches(matchers[f[l]], elements[l]))
    && (forall l, k :: 0 <= l < k < |f| ==> f[l] != f[k])
  }

  /** The promise of the three matchers about the elements themselves. */
  ghost predicate Holds<E, M>(require: Require, elements: seq<E>, matchers: seq<M>, matches: (M, E) -> bool) {
    match require
    case Superset => exists f :: PicksElements(elements, matchers, matches, f)
    case Subset => exists f :: PicksMatchers(elements, matchers, matches, f)
    case ExactMatch => |elements| == |matchers| && exists f :: PicksMatchers(elements, matchers, matches, f)
  }

  /** The matrix has an edge wherever a matcher matches an element. */
  ghost predicate Shows<E, M>(g: Graph, elements: seq<E>, matchers: seq<M>, matches: (M, E) -> bool) {
    && g.LhsSize() == |elements| && g.RhsSize() == |matchers|
    && forall i, j :: 0 <= i < |elements| && 0 <= j < |matchers| ==>
         g.HasEdge(i, j) == matches(matchers[j], elements[i])
  }

  lemma MatrixDecides<E, M>(require: Require, g: Graph, elements: seq<E>, matchers: seq<M>, matches: (M, E) -> bool)
    requires Shows(g, elements, matchers, matches)
    ensures Meets(g, require) <==> Holds(require, elements, matchers, matches)
  {
    forall f ensures AssignsMatchers(g, f) <==> PicksElements(elements, matchers, matches, f) {
      if AssignsMatchers(g, f) {
        assert forall r :: 0 <= r < |f| ==> IsEdge(g, (f[r], r));
      }
    }
    forall f ensures AssignsElements(g, f) <==> PicksMatchers(elements, matchers, matches, f) {
      if AssignsElements(g, f) {
        assert forall l :: 0 <= l < |f| ==> IsEdge(g, (l, f[l]));
      }
    }
  }

  /** The results of all matchers for one element after the other. */
  ghost function Results<E, M>(elements: seq<E>, matchers: seq<M>, matches: (M, E) -> bool): (results: seq<bool>)
    ensures |results| == |elements| * |matchers|
  {
    if elements == [] then []
    else
      Results(elements[..|elements| - 1], matchers, matches) +
      ResultsOf(elements[|elements| - 1], matchers, matches)
  }

  ghost function ResultsOf<E, M>(element: E, matchers: seq<M>, matches: (M, E) -> bool): (results: seq<bool>)
    ensures |results| == |matchers|
  {
    seq(|matchers|, j requires 0 <= j < |matchers| => matches(matchers[j], element))
  }

  lemma {:induction false} ResultAt<E, M>(elements: seq<E>, matchers: seq<M>, matches: (M, E) -> bool, i: nat, j: nat)
    requires i < |elements| && j < |matchers|
    ensures i * |matchers| + j < |Results(elements, matchers, matches)|
    ensures Results(elements, matchers, matches)[i * |matchers| + j] == matches(matchers[j], elements[i])
    decreases |elements|
  {
    var n := |elements| - 1;
    RowsFit(i + 1, |elements|, |matchers|);
    assert (i + 1) * |matchers| == i * |matchers| + |matchers|;
    if i < n {
      ResultAt(elements[..n], matchers, matches, i, j);
    }
  }

  /** Asks every matcher about every element. */
  method CollectMatches<E, M>(elements: seq<E>, matchers: seq<M>, matches: (M, E) -> bool) returns (didMatch: seq<bool>)
    ensures didMatch == Results(elements, matchers, matches)
  {
    didMatch := [];
    for i := 0 to |elements|
      invariant didMatch == Results(elements[..i], matchers, matches)
    {
      ghost var before := didMatch;
      for irhs := 0 to |matchers|
        invariant didMatch == before + ResultsOf(elements[i], matchers, matches)[..irhs]
      {
        didMatch := didMatch + [matches(matchers[irhs], elements[i])];
      }
      assert elements[..i + 1][..i] == elements[..i];
    }
    assert elements[..|elements|] == elements;
  }

  /** The matrix shows the answers for the first i elements and the first j matchers of the next. */
  ghost predicate ShowsUpTo<E, M>(g: Graph, elements: seq<E>, matchers: seq<M>, matches: (M, E) -> bool, i: nat, j: nat)
  {
    && g.LhsSize() == |elements| && g.RhsSize() == |matchers|
    && forall k, l :: 0 <= k < |elements| && 0 <= l < |matchers| && (k < i || (k == i && l < j)) ==>
         g.HasEdge(k, l) == matches(matchers[l], elements[k])
  }

  lemma ShowsNext<E, M>(g: Graph, elements: seq<E>, matchers: seq<M>, matches: (M, E) -> bool, i: nat, j: nat, b: bool)
    requires i < |elements| && j < |matchers| && ShowsUpTo(g, elements, matchers, matches, i, j)
    requires b == matches(matchers[j], elements[i])
    ensures ShowsUpTo(g.SetEdge(i, j, b), elements, matchers, matches, i, j + 1)
  {
    hide MatchMatrix.HasEdge;
  }

  lemma ShowsRow<E, M>(g: Graph, elements: seq<E>, matchers: seq<M>, matches: (M, E) -> bool, i: nat)
    requires ShowsUpTo(g, elements, matchers, matches, i, |matchers|)
    ensures ShowsUpTo(g, elements, matchers, matches, i + 1, 0)
  {
    hide MatchMatrix.HasEdge;
  }

  /** Enters all the answers in the matrix. */
  method AnalyzeElements<E, M>(elements: seq<E>, matchers: seq<M>, matches: (M, E) -> bool) returns (matrix: Graph)
    ensures Shows(matrix, elements, matchers, matches)
  {
    var didMatch := CollectMatches(elements, matchers, matches);
    matrix := NewMatrix(|elements|, |matchers|);
    var next: nat := 0;
    hide MatchMatrix.HasEdge, Results;
    for ilhs := 0 to |elements|
      invariant ShowsUpTo(matrix, elements, matchers, matches, ilhs, 0) && next == ilhs * |matchers|
    {
      for irhs := 0 to |matchers|
        invariant ShowsUpTo(matrix, elements, matchers, matches, ilhs, irhs) && next == ilhs * |matchers| + irhs
      {
        ResultAt(elements, matchers, matches, ilhs, irhs);
        ShowsNext(matrix, elements, matchers, matches, ilhs, irhs, didMatch[next]);
        matrix := matrix.SetEdge(ilhs, irhs, didMatch[next]);
        next := next + 1;
      }
      ShowsRow(matrix, elements, matchers, matches, ilhs);
      assert (ilhs + 1) * |matchers| == ilhs * |matchers| + |matchers|;
    }
  }

  /** The whole decision: the matrix, the quick test, then the matching. */
  method MatchAndExplain<E, M>(require: Require, elements: seq<E>, matchers: seq<M>, matches: (M, E) -> bool)
    returns (ok: bool)
    ensures ok <==> Holds(require, elements, matchers, matches)
  {
    var matrix := AnalyzeElements(elements, matchers, matches);
    MatrixDecides(require, matrix, elements, matchers, matches);
    if Meets(matrix, require) {
      QuickTestIsNecessary(matrix, require);
    }
    ok := VerifyMatchMatrix(require, matrix);
    if ok {
      ok := FindPairing(require, matrix);
    }
  }
}
