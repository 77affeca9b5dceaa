/**
  The registry of test suites: where new suites go, and what any sequence of
  registrations, shuffles and unshuffles keeps true of the order they run in.
 */
module TestRegistry {
  import opened Glob
  import opened TestFilter
  import opened Shuffling

  const DEATH_TEST_SUITE_FILTER: string := "*DeathTest:*DeathTest/*"

  /** Death test suites are told by their names. */
  ghost predicate IsDeathTestSuite(name: string) {
    EndsWith(name, "DeathTest") || Contains(name, "DeathTest/")
  }

  lemma DeathTestPatterns(first: string, second: string)
    requires first == "*" + "DeathTest" && second == "*" + ("DeathTest/" + "*")
    ensures DEATH_TEST_SUITE_FILTER == first + [':'] + second && ':' !in first && ':' !in second
  {
  }

  /** The filter for death test suites means those names. */
  lemma DeathTestByName(name: string)
    ensures SomeMatches(Split(DEATH_TEST_SUITE_FILTER, ':'), name) <==> IsDeathTestSuite(name)
  {
    var first, second := "*" + "DeathTest", "*" + ("DeathTest/" + "*");
    DeathTestPatterns(first, second);
    StarThenText("DeathTest", name);
    StarTextStar("DeathTest/", name);
    hide *;
    TwoPatterns(first, second, name);
  }

  /** The numbers from lo up to but not including hi, in order. */
  function UpTo(lo: nat, hi: nat): (numbers: seq<nat>)
    requires lo <= hi
    ensures |numbers| == hi - lo && forall k :: 0 <= k < hi - lo ==> numbers[k] == lo + k
  {
    seq(hi - lo, k requires 0 <= k < hi - lo => lo + k)
  }

  // ---- orders ----------------------------------------------------------------------------

  /** An order of n numbers in which those below d come first. */
  ghost predicate IsOrder(indices: seq<nat>, d: nat, n: nat) {
    && d <= n == |indices|
    && multiset(indices[..d]) == multiset(UpTo(0, d))
    && multiset(indices[d..]) == multiset(UpTo(d, n))
  }

  lemma IdentityIsOrder(d: nat, n: nat)
    requires d <= n
    ensures IsOrder(UpTo(0, n), d, n)
  {
    assert UpTo(0, n)[..d] == UpTo(0, d) && UpTo(0, n)[d..] == UpTo(d, n);
  }

  lemma {:induction false} CountUpTo(lo: nat, hi: nat, x: nat)
    requires lo <= hi
    ensures multiset(UpTo(lo, hi))[x] == if lo <= x < hi then 1 else 0
    decreases hi
  {
    if lo < hi {
      CountUpTo(lo, hi - 1, x);
      assert UpTo(lo, hi) == UpTo(lo, hi - 1) + [hi - 1];
    } else {
      assert UpTo(lo, hi) == [];
    }
  }

  /** In an order every number below n occurs once, the first d places hold the numbers
      below d, and the other places hold the others. */
  lemma OrderMeans(indices: seq<nat>, d: nat, n: nat)
    requires IsOrder(indices, d, n)
    ensures forall x: nat :: multiset(indices)[x] == if x < n then 1 else 0
    ensures forall k :: 0 <= k < n ==> indices[k] < n && (indices[k] < d <==> k < d)
  {
    assert indices == indices[..d] + indices[d..];
    forall x: nat ensures multiset(indices)[x] == if x < n then 1 else 0 {
      CountUpTo(0, d, x);
      CountUpTo(d, n, x);
    }
    forall k | 0 <= k < n ensures indices[k] < n && (indices[k] < d <==> k < d) {
      if k < d {
        assert indices[..d][k] in multiset(indices[..d]);
        CountUpTo(0, d, indices[k]);
      } else {
        assert indices[d..][k - d] in multiset(indices[d..]);
        CountUpTo(d, n, indices[k]);
      }
    }
  }

  /** Rearranging the two parts, each in itself, makes an order of an order. */
  lemma OrderKept(before: seq<nat>, between: seq<nat>, after: seq<nat>, d: nat, n: nat)
    requires IsOrder(before, d, n) && Rearranges(before, between, 0, d) && Rearranges(between, after, d, n)
    ensures IsOrder(after, d, n)
  {
    assert before[..d] == before[0..d] && between[..d] == between[0..d];
    assert between[d..] == between[d..n] && after[d..] == after[d..n];
  }

  lemma IsUpTo(indices: seq<nat>)
    requires forall k :: 0 <= k < |indices| ==> indices[k] == k
    ensures indices == UpTo(0, |indices|)
  {
  }

  /** All of a list is shuffled from a state of the generator. */
  ghost predicate IsShuffled(before: seq<nat>, after: seq<nat>, state: nat) {
    after == Arranged(before, 0, |before|, Draws(state, |before|))
  }

  /** The first d places and the others are shuffled one after the other. */
  ghost predicate PartsShuffled(before: seq<nat>, after: seq<nat>, state: nat, d: nat, n: nat) {
    && d <= n == |before|
    && after == Arranged(Arranged(before, 0, d, Draws(state, d)), d, n - d, Draws(StateAfter(state, d), n - d))
  }

  lemma InParts(before: seq<nat>, between: seq<nat>, after: seq<nat>, state: nat, d: nat, n: nat)
    requires d <= n == |before| && between == Arranged(before, 0, d - 0, Draws(state, d - 0))
    requires after == Arranged(between, d, n - d, Draws(StateAfter(state, d - 0), n - d))
    ensures PartsShuffled(before, after, state, d, n)
  {
  }

  // ---- suites --------------------------------------------------------------------------------

  class TestSuite {
    const name: string
    var testInfoList: seq<string>
    var testIndices: array<nat>

    /** The tests are run in some order. */
    ghost predicate Valid()
      reads this, testIndices
    {
      testIndices.Length == |testInfoList| <= MAX_RANGE && IsOrder(testIndices[..], 0, |testInfoList|)
    }

    ghost predicate InOrder()
      reads this, testIndices
    {
      testIndices[..] == UpTo(0, |testInfoList|)
    }

    lemma ValidMeans()
      requires Valid()
      ensures testIndices.Length == |testInfoList| <= MAX_RANGE && IsOrder(testIndices[..], 0, |testIndices[..]|)
    {
    }

    lemma IsValid()
      requires testIndices.Length == |testInfoList| <= MAX_RANGE && IsOrder(testIndices[..], 0, |testIndices[..]|)
      ensures Valid()
    {
    }

    constructor (name: string)
      ensures this.name == name && testInfoList == [] && Valid() && InOrder() && fresh(testIndices)
    {
      this.name := name;
      testInfoList := [];
      testIndices := new nat[0];
      new;
      assert testIndices[..] == UpTo(0, 0);
      IdentityIsOrder(0, 0);
    }

    method AddTestInfo(testInfo: string)
      requires Valid() && InOrder() && |testInfoList| < MAX_RANGE
      modifies this
      ensures testInfoList == old(testInfoList) + [testInfo]
      ensures Valid() && InOrder() && fresh(testIndices)
    {
      testInfoList := testInfoList + [testInfo];
      testIndices := PushBack(testIndices, testIndices.Length);
      assert testIndices[..] == UpTo(0, |testInfoList|);
      IdentityIsOrder(0, |testInfoList|);
    }

    method ShuffleTests(random: Random)
      requires Valid()
      modifies random, testIndices
      ensures Valid()
      ensures IsShuffled(old(testIndices[..]), testIndices[..], old(random.state))
      ensures random.state == StateAfter(old(random.state), |old(testIndices[..])|)
    {
      Shuffle(random, testIndices);
    }

    method UnshuffleTests()
      requires Valid()
      modifies testIndices
      ensures Valid() && InOrder()
    {
      for i := 0 to testIndices.Length
        invariant forall k :: 0 <= k < i ==> testIndices[k] == k
      {
        testIndices[i] := i;
      }
      assert testIndices[..] == UpTo(0, |testInfoList|);
      IdentityIsOrder(0, |testInfoList|);
    }
  }

  method HasDeathTestName(name: string) returns (yes: bool)
    ensures yes <==> IsDeathTestSuite(name)
  {
    var filter := MakeFilter(DEATH_TEST_SUITE_FILTER);
    yes := filter.MatchesName(name, Split(DEATH_TEST_SUITE_FILTER, ':'));
    DeathTestByName(name);
  }

  /** Appends to a vector of numbers. */
  method PushBack(v: array<nat>, x: nat) returns (w: array<nat>)
    ensures fresh(w) && w[..] == v[..] + [x]
  {
    w := new nat[v.Length + 1](i requires 0 <= i <= v.Length reads v => if i < v.Length then v[i] else x);
  }

  lemma OneMore(indices: seq<nat>, more: seq<nat>)
    requires indices == UpTo(0, |indices|) && more == indices + [|indices|]
    ensures more == UpTo(0, |indices| + 1)
  {
  }

  /** No two suites share a name, and all are found by name. */
  ghost predicate WellNamed(suites: seq<TestSuite>, byName: map<string, TestSuite>) {
    && (forall i, j :: 0 <= i < j < |suites| ==> suites[i].name != suites[j].name)
    && (forall s :: s in suites ==> s.name in byName && byName[s.name] == s)
    && (forall name :: name in byName ==> byName[name] in suites && byName[name].name == name)
  }

  lemma NamedBy(suites: seq<TestSuite>, byName: map<string, TestSuite>, suite: TestSuite)
    requires WellNamed(suites, byName) && suite in suites
    ensures suite.name in byName && byName[suite.name] == suite && byName[suite.name := suite] == byName
  {
  }

  lemma NameOf(suites: seq<TestSuite>, byName: map<string, TestSuite>, name: string)
    requires WellNamed(suites, byName) && name in byName
    ensures byName[name] in suites && byName[name].name == name && byName[name := byName[name]] == byName
  {
  }

  ghost predicate DeathSuitesFirst(suites: seq<TestSuite>, last: int) {
    && -1 <= last < |suites|
    && forall i :: 0 <= i < |suites| ==> (i <= last <==> IsDeathTestSuite(suites[i].name))
  }

  /** No vector of indices is shared. */
  ghost predicate ArraysDiffer(suites: seq<TestSuite>, indices: array<nat>)
    reads suites
  {
    && (forall i, j :: 0 <= i < j < |suites| ==> suites[i].testIndices != suites[j].testIndices)
    && (forall i :: 0 <= i < |suites| ==> suites[i].testIndices != indices)
  }

  ghost predicate VectorsDiffer(arrays: seq<array<nat>>, indices: array<nat>) {
    && (forall i, j :: 0 <= i < |arrays| && 0 <= j < |arrays| && i != j ==> arrays[i] != arrays[j])
    && (forall i :: 0 <= i < |arrays| ==> arrays[i] != indices)
  }

  lemma VectorsApart(arrays: seq<array<nat>>, indices: array<nat>, i: nat)
    requires VectorsDiffer(arrays, indices) && i < |arrays|
    ensures arrays[i] != indices
  {
  }

  lemma VectorReplaced(suites: seq<TestSuite>, arrays: seq<array<nat>>, at: nat, indices: array<nat>)
    requires |arrays| == |suites| && at < |suites| && VectorsDiffer(arrays, indices)
    requires forall k :: 0 <= k < |suites| && k != at ==>
               suites[k].testIndices == arrays[k] && arrays[k] != suites[at].testIndices
    requires suites[at].testIndices != indices
    ensures ArraysDiffer(suites, indices)
  {
  }

  /** The list after an insertion in front of the position given. */
  function InsertedAt(suites: seq<TestSuite>, suite: TestSuite, at: nat): seq<TestSuite>
    requires at <= |suites|
  {
    suites[..at] + [suite] + suites[at..]
  }

  lemma InsertedMembers(suites: seq<TestSuite>, suite: TestSuite, at: nat)
    requires at <= |suites|
    ensures |InsertedAt(suites, suite, at)| == |suites| + 1
    ensures at == |suites| ==> InsertedAt(suites, suite, at) == suites + [suite]
    ensures forall s :: s in InsertedAt(suites, suite, at) <==> s in suites || s == suite
    ensures forall i :: 0 <= i <= |suites| ==>
              InsertedAt(suites, suite, at)[i] == if i < at then suites[i] else if i == at then suite else suites[i - 1]
  {
    assert suites == suites[..at] + suites[at..];
  }

  lemma NamesInserted(suites: seq<TestSuite>, byName: map<string, TestSuite>, suite: TestSuite, at: nat)
    requires at <= |suites| && WellNamed(suites, byName) && suite.name !in byName
    ensures WellNamed(InsertedAt(suites, suite, at), byName[suite.name := suite])
  {
    InsertedMembers(suites, suite, at);
    var after, named := InsertedAt(suites, suite, at), byName[suite.name := suite];
    forall i, j | 0 <= i < j < |after| ensures after[i].name != after[j].name {
      InsertedNamesDiffer(suites, byName, suite, at, i, j);
    }
    hide InsertedAt;
    forall name | name in named ensures named[name] in after && named[name].name == name {
      if name != suite.name {
        assert byName[name] in suites;
      }
    }
  }

  lemma InsertedNamesDiffer(suites: seq<TestSuite>, byName: map<string, TestSuite>, suite: TestSuite, at: nat, i: nat,
                            j: nat)
    requires at <= |suites| && WellNamed(suites, byName) && suite.name !in byName && i < j <= |suites|
    ensures InsertedAt(suites, suite, at)[i].name != InsertedAt(suites, suite, at)[j].name
  {
    if i == at {
      assert suites[j - 1] in suites;
    } else if j == at {
      assert suites[i] in suites;
    }
  }

  /** A death test suite goes after the last one so far, any other suite to the end. */
  lemma DeathSuiteInserted(suites: seq<TestSuite>, last: int, suite: TestSuite)
    requires DeathSuitesFirst(suites, last)
    ensures IsDeathTestSuite(suite.name) ==> DeathSuitesFirst(InsertedAt(suites, suite, last + 1), last + 1)
    ensures !IsDeathTestSuite(suite.name) ==> DeathSuitesFirst(InsertedAt(suites, suite, |suites|), last)
  {
    hide IsDeathTestSuite;
    var front, back := InsertedAt(suites, suite, last + 1), InsertedAt(suites, suite, |suites|);
    assert forall i :: 0 <= i < |front| ==>
        front[i] == if i <= last then suites[i] else if i == last + 1 then suite else suites[i - 1];
    assert forall i :: 0 <= i < |back| ==> back[i] == if i < |suites| then suites[i] else suite;
  }

  lemma SuitesInserted(suites: seq<TestSuite>, suite: TestSuite, at: nat)
    requires at <= |suites| && suite.Valid() && suite.InOrder()
    requires forall i :: 0 <= i < |suites| ==> suites[i].Valid() && suites[i].InOrder()
    ensures forall i :: 0 <= i < |suites| + 1 ==>
              InsertedAt(suites, suite, at)[i].Valid() && InsertedAt(suites, suite, at)[i].InOrder()
  {
    hide IsOrder, UpTo;
    var after := InsertedAt(suites, suite, at);
    assert forall i :: 0 <= i < |after| ==>
        after[i] == if i < at then suites[i] else if i == at then suite else suites[i - 1];
  }

  lemma ArraysInserted(suites: seq<TestSuite>, indices: array<nat>, suite: TestSuite, at: nat, more: array<nat>)
    requires at <= |suites| && ArraysDiffer(suites, indices)
    requires forall i :: 0 <= i < |suites| ==>
               suites[i].testIndices != suite.testIndices && suites[i].testIndices != more
    requires suite.testIndices != more
    ensures ArraysDiffer(InsertedAt(suites, suite, at), more)
  {
    var after := InsertedAt(suites, suite, at);
    assert forall i :: 0 <= i < |after| ==>
        after[i] == if i < at then suites[i] else if i == at then suite else suites[i - 1];
  }

  /** The state of the generator after the first i of these lists are shuffled. */
  ghost function StateAfterEach(state: nat, orders: seq<seq<nat>>, i: nat): nat
    requires i <= |orders|
  {
    if i == 0 then state else StateAfter(StateAfterEach(state, orders, i - 1), |orders[i - 1]|)
  }

  /** The first i lists are shuffled one after the other, the others are as they were. */
  ghost predicate ShuffledUpTo(orders: seq<seq<nat>>, now: seq<seq<nat>>, state: nat, i: nat) {
    && i <= |orders| == |now|
    && (forall k :: 0 <= k < i ==> IsShuffled(orders[k], now[k], StateAfterEach(state, orders, k)))
    && (forall k :: i <= k < |now| ==> now[k] == orders[k])
  }

  /** Every list is arranged by the draws from the state that those before it leave. */
  lemma EachIsShuffled(orders: seq<seq<nat>>, now: seq<seq<nat>>, state: nat, k: nat)
    requires ShuffledUpTo(orders, now, state, |orders|) && k < |orders|
    ensures now[k] ==
            Arranged(orders[k], 0, |orders[k]|, Draws(StateAfterEach(state, orders, k), |orders[k]|))
    ensures multiset(now[k]) == multiset(orders[k])
  {
    var n, choices := |orders[k]|, Draws(StateAfterEach(state, orders, k), |orders[k]|);
    assert IsShuffled(orders[k], now[k], StateAfterEach(state, orders, k));
    ArrangedRearranges(orders[k], 0, n, choices);
    assert orders[k][0..n] == orders[k] && now[k][0..n] == now[k];
  }

  lemma NextShuffled(orders: seq<seq<nat>>, now: seq<seq<nat>>, after: seq<nat>, state: nat, i: nat)
    requires i < |orders| && ShuffledUpTo(orders, now, state, i)
    requires IsShuffled(now[i], after, StateAfterEach(state, orders, i))
    ensures ShuffledUpTo(orders, now[i := after], state, i + 1)
    ensures StateAfterEach(state, orders, i + 1) == StateAfter(StateAfterEach(state, orders, i), |now[i]|)
  {
    hide IsShuffled, StateAfter;
  }

  ghost predicate AllOrders(orders: seq<seq<nat>>) {
    forall k :: 0 <= k < |orders| ==> |orders[k]| <= MAX_RANGE && IsOrder(orders[k], 0, |orders[k]|)
  }

  lemma OrderOf(orders: seq<seq<nat>>, k: nat)
    requires AllOrders(orders) && k < |orders|
    ensures |orders[k]| <= MAX_RANGE && IsOrder(orders[k], 0, |orders[k]|)
  {
  }

  lemma OrderReplaced(orders: seq<seq<nat>>, k: nat, order: seq<nat>)
    requires AllOrders(orders) && k < |orders| && |order| <= MAX_RANGE && IsOrder(order, 0, |order|)
    ensures AllOrders(orders[k := order])
  {
    hide IsOrder;
  }

  // ---- the registry ------------------------------------------------------------------------------

  class UnitTestImpl {
    var testSuites: seq<TestSuite>
    var testSuitesByName: map<string, TestSuite>
    var testSuiteIndices: array<nat>
    var lastDeathTestSuite: int
    const random: Random

    ghost function Arrays(): (arrays: set<array<nat>>)
      reads this, testSuites
      ensures testSuiteIndices in arrays
    {
      {testSuiteIndices} + set s | s in testSuites :: s.testIndices
    }

    /** Suites are found by their names; death test suites come first in the list and in the
        order of running; every suite runs its tests in some order. */
    ghost predicate Valid()
      reads this, testSuites, Arrays()
    {
      && |testSuites| <= MAX_RANGE && testSuiteIndices.Length == |testSuites|
      && WellNamed(testSuites, testSuitesByName)
      && DeathSuitesFirst(testSuites, lastDeathTestSuite)
      && ArraysDiffer(testSuites, testSuiteIndices)
      && (forall i :: 0 <= i < |testSuites| ==> testSuites[i].Valid())
      && IsOrder(testSuiteIndices[..], lastDeathTestSuite + 1, |testSuites|)
    }

    /** Nothing is shuffled. */
    ghost predicate InOrder()
      reads this, testSuites, Arrays()
    {
      && testSuiteIndices[..] == UpTo(0, |testSuites|)
      && forall i :: 0 <= i < |testSuites| ==> testSuites[i].InOrder()
    }

    constructor (random: Random)
      ensures Valid() && InOrder() && testSuites == [] && testSuitesByName == map[] && this.random == random
      ensures fresh(testSuiteIndices)
    {
      testSuites, testSuitesByName := [], map[];
      testSuiteIndices := new nat[0];
      lastDeathTestSuite := -1;
      this.random := random;
      new;
      assert testSuiteIndices[..] == UpTo(0, 0);
      IdentityIsOrder(0, 0);
    }

    lemma ValidMeans()
      requires Valid()
      ensures -1 <= lastDeathTestSuite < |testSuites| == testSuiteIndices.Length <= MAX_RANGE
      ensures WellNamed(testSuites, testSuitesByName) && DeathSuitesFirst(testSuites, lastDeathTestSuite)
      ensures ArraysDiffer(testSuites, testSuiteIndices)
      ensures forall i :: 0 <= i < |testSuites| ==> testSuites[i].Valid()
      ensures IsOrder(testSuiteIndices[..], lastDeathTestSuite + 1, |testSuites|)
    {
    }

    lemma IsValid()
      requires |testSuites| <= MAX_RANGE
      requires WellNamed(testSuites, testSuitesByName) && DeathSuitesFirst(testSuites, lastDeathTestSuite)
      requires ArraysDiffer(testSuites, testSuiteIndices)
      requires forall i :: 0 <= i < |testSuites| ==> testSuites[i].Valid()
      requires 0 <= lastDeathTestSuite + 1 && IsOrder(testSuiteIndices[..], lastDeathTestSuite + 1, |testSuites|)
      ensures Valid()
    {
      assert testSuiteIndices.Length == |testSuiteIndices[..]|;
    }

    lemma UnshuffledMeans()
      requires Valid() && InOrder()
      ensures forall i :: 0 <= i < |testSuites| ==> testSuites[i].Valid() && testSuites[i].InOrder()
      ensures testSuiteIndices[..] == UpTo(0, |testSuites|)
    {
    }

    lemma IsUnshuffled()
      requires |testSuites| <= MAX_RANGE
      requires WellNamed(testSuites, testSuitesByName) && DeathSuitesFirst(testSuites, lastDeathTestSuite)
      requires ArraysDiffer(testSuites, testSuiteIndices)
      requires forall i :: 0 <= i < |testSuites| ==> testSuites[i].Valid() && testSuites[i].InOrder()
      requires testSuiteIndices[..] == UpTo(0, |testSuites|)
      ensures Valid() && InOrder()
    {
      IdentityIsOrder(lastDeathTestSuite + 1, |testSuites|);
      IsValid();
    }

    /** What an insertion must have done for the registry to stay unshuffled. */
    lemma IsExtended(before: seq<TestSuite>, oldIndices: array<nat>, suite: TestSuite, at: nat)
      requires at <= |before| < MAX_RANGE && testSuites == InsertedAt(before, suite, at)
      requires WellNamed(testSuites, testSuitesByName) && DeathSuitesFirst(testSuites, lastDeathTestSuite)
      requires ArraysDiffer(before, oldIndices) && suite.testIndices != testSuiteIndices
      requires forall i :: 0 <= i < |before| ==>
                 && before[i].Valid() && before[i].InOrder()
                 && before[i].testIndices != suite.testIndices && before[i].testIndices != testSuiteIndices
      requires suite.Valid() && suite.InOrder()
      requires testSuiteIndices[..] == UpTo(0, |before|) + [|before|]
      ensures Valid() && InOrder()
    {
      hide *;
      InsertedMembers(before, suite, at);
      ArraysInserted(before, oldIndices, suite, at, testSuiteIndices);
      OneMore(UpTo(0, |before|), testSuiteIndices[..]);
      SuitesInserted(before, suite, at);
      IsUnshuffled();
    }

    /** Makes a suite and puts it after the other death test suites, or at the end. */
    method AddTestSuite(testSuiteName: string) returns (suite: TestSuite)
      requires Valid() && InOrder() && |testSuites| < MAX_RANGE && testSuiteName !in testSuitesByName
      modifies this
      ensures Valid() && InOrder()
      ensures fresh(suite) && suite.name == testSuiteName && suite.testInfoList == []
      ensures fresh(testSuiteIndices) && fresh(suite.testIndices)
      ensures testSuitesByName == old(testSuitesByName)[testSuiteName := suite]
      ensures var at := if IsDeathTestSuite(testSuiteName) then old(lastDeathTestSuite) + 1 else |old(testSuites)|;
              at <= |old(testSuites)| && testSuites == InsertedAt(old(testSuites), suite, at)
    {
      hide *;
      ghost var at := if IsDeathTestSuite(testSuiteName) then lastDeathTestSuite + 1 else |testSuites|;
      ghost var before, oldIndices := testSuites, testSuiteIndices;
      ValidMeans();
      UnshuffledMeans();
      suite := new TestSuite(testSuiteName);
      NamesInserted(before, testSuitesByName, suite, at);
      DeathSuiteInserted(before, lastDeathTestSuite, suite);
      InsertedMembers(before, suite, at);
      testSuitesByName := testSuitesByName[testSuiteName := suite];
      var isDeathTestSuite := HasDeathTestName(testSuiteName);
      if isDeathTestSuite {
        lastDeathTestSuite := lastDeathTestSuite + 1;
        testSuites := InsertedAt(testSuites, suite, lastDeathTestSuite);
      } else {
        testSuites := testSuites + [suite];
      }
      assert testSuites == InsertedAt(before, suite, at) && DeathSuitesFirst(testSuites, lastDeathTestSuite);
      testSuiteIndices := PushBack(testSuiteIndices, testSuiteIndices.Length);
      IsExtended(before, oldIndices, suite, at);
    }

    /** The suite with a name, made if there is none: after the other death test suites
        or at the end. Only to be called while nothing is shuffled. */
    method GetTestSuite(testSuiteName: string) returns (suite: TestSuite)
      requires Valid() && InOrder() && |testSuites| < MAX_RANGE
      modifies this
      ensures Valid() && InOrder()
      ensures suite.name == testSuiteName && suite in testSuites
      ensures testSuitesByName == old(testSuitesByName)[testSuiteName := suite]
      ensures if testSuiteName in old(testSuitesByName)
              then testSuites == old(testSuites) && testSuiteIndices == old(testSuiteIndices) &&
                   suite == old(testSuitesByName)[testSuiteName] && lastDeathTestSuite == old(lastDeathTestSuite)
              else
                && fresh(suite) && suite.testInfoList == [] && fresh(testSuiteIndices)
                && var at := if IsDeathTestSuite(testSuiteName) then old(lastDeathTestSuite) + 1 else |old(testSuites)|;
                   testSuites == InsertedAt(old(testSuites), suite, at)
    {
      hide *;
      ValidMeans();
      ghost var before := testSuites;
      ghost var at := if IsDeathTestSuite(testSuiteName) then lastDeathTestSuite + 1 else |testSuites|;
      if |testSuites| > 0 && testSuites[|testSuites| - 1].name == testSuiteName {
        NamedBy(testSuites, testSuitesByName, testSuites[|testSuites| - 1]);
        return testSuites[|testSuites| - 1];
      }
      if testSuiteName in testSuitesByName {
        NameOf(testSuites, testSuitesByName, testSuiteName);
        return testSuitesByName[testSuiteName];
      }
      suite := AddTestSuite(testSuiteName);
      InsertedMembers(before, suite, at);
    }

    ghost function Vectors(): (arrays: seq<array<nat>>)
      reads this, testSuites
      ensures |arrays| == |testSuites| && forall k :: 0 <= k < |testSuites| ==> arrays[k] == testSuites[k].testIndices
    {
      seq(|testSuites|, k requires 0 <= k < |testSuites| reads this, testSuites => testSuites[k].testIndices)
    }

    /** Registers a test, and its suite if that is new; the registry stays unshuffled and all
        other suites are as they were. */
    method AddTestInfo(testSuiteName: string, testInfo: string) returns (suite: TestSuite)
      requires Valid() && InOrder() && |testSuites| < MAX_RANGE
      requires testSuiteName in testSuitesByName ==> |testSuitesByName[testSuiteName].testInfoList| < MAX_RANGE
      modifies this, testSuites
      ensures Valid() && InOrder()
      ensures testSuitesByName == old(testSuitesByName)[testSuiteName := suite] && suite in testSuites
      ensures suite.testInfoList ==
              (if testSuiteName in old(testSuitesByName)
                then old(testSuitesByName[testSuiteName].testInfoList)
                else []) + [testInfo]
      ensures forall s :: s in old(testSuites) && s != suite ==> s.testInfoList == old(s.testInfoList)
      ensures if testSuiteName in old(testSuitesByName) then testSuites == old(testSuites)
              else
                var at := if IsDeathTestSuite(testSuiteName) then old(lastDeathTestSuite) + 1 else |old(testSuites)|;
                at <= |old(testSuites)| && testSuites == InsertedAt(old(testSuites), suite, at)
    {
      hide *;
      ValidMeans();
      if testSuiteName in testSuitesByName {
        NameOf(testSuites, testSuitesByName, testSuiteName);
      }
      suite := GetTestSuite(testSuiteName);
      AppendTest(suite, testInfo);
    }

    /** Adds a test to a registered suite. */
    method AppendTest(suite: TestSuite, testInfo: string)
      requires Valid() && InOrder() && suite in testSuites && |suite.testInfoList| < MAX_RANGE
      modifies suite
      ensures Valid() && InOrder() && suite.testInfoList == old(suite.testInfoList) + [testInfo]
    {
      hide *;
      ValidMeans();
      UnshuffledMeans();
      ghost var at: nat :| at < |testSuites| && testSuites[at] == suite;
      OthersDiffer(at);
      ghost var arrays := Vectors();
      suite.AddTestInfo(testInfo);
      VectorReplaced(testSuites, arrays, at, testSuiteIndices);
      IsUnshuffled();
    }

    lemma OthersDiffer(at: nat)
      requires WellNamed(testSuites, testSuitesByName) && ArraysDiffer(testSuites, testSuiteIndices) &&
               at < |testSuites|
      ensures forall k :: 0 <= k < |testSuites| && k != at ==> testSuites[k] != testSuites[at]
      ensures VectorsDiffer(Vectors(), testSuiteIndices)
    {
    }

    /** The index vectors of the suites. */
    ghost function TestOrders(): (orders: seq<seq<nat>>)
      reads this, testSuites, Arrays()
      ensures |orders| == |testSuites|
      ensures forall k :: 0 <= k < |testSuites| ==> orders[k] == testSuites[k].testIndices[..]
    {
      seq(|testSuites|,
          k requires 0 <= k < |testSuites| reads this, testSuites, Arrays() => testSuites[k].testIndices[..])
    }

    lemma AreTestOrders(orders: seq<seq<nat>>)
      requires |orders| == |testSuites|
      requires forall k :: 0 <= k < |testSuites| ==> orders[k] == testSuites[k].testIndices[..]
      ensures TestOrders() == orders
    {
    }

    lemma BeforeShuffling()
      requires ArraysDiffer(testSuites, testSuiteIndices) && forall k :: 0 <= k < |testSuites| ==> testSuites[k].Valid()
      ensures VectorsDiffer(Vectors(), testSuiteIndices) && AreVectors(Vectors(), TestOrders())
      ensures forall k :: 0 <= k < |Vectors()| ==> Vectors()[k] in Arrays()
      ensures AllOrders(TestOrders()) && ShuffledUpTo(TestOrders(), TestOrders(), random.state, 0)
      ensures StateAfterEach(random.state, TestOrders(), 0) == random.state
    {
    }

    /** Shuffles the tests of every suite. */
    method ShuffleEachSuite()
      requires ArraysDiffer(testSuites, testSuiteIndices) && forall k :: 0 <= k < |testSuites| ==> testSuites[k].Valid()
      modifies random, Arrays()
      ensures forall k :: 0 <= k < |testSuites| ==> testSuites[k].Valid()
      ensures testSuiteIndices[..] == old(testSuiteIndices[..])
      ensures ShuffledUpTo(old(TestOrders()), TestOrders(), old(random.state), |testSuites|)
      ensures random.state == StateAfterEach(old(random.state), old(TestOrders()), |testSuites|)
    {
      hide *;
      ghost var before, state, orders := testSuiteIndices[..], random.state, TestOrders();
      ghost var now, arrays := orders, Vectors();
      BeforeShuffling();
      for i := 0 to |testSuites|
        invariant testSuiteIndices[..] == before && |now| == |testSuites| && AllOrders(now)
        invariant random.state == StateAfterEach(state, orders, i) && ShuffledUpTo(orders, now, state, i)
        invariant AreVectors(arrays, now)
      {
        ghost var current := random.state;
        assert testSuiteIndices != arrays[i] by {
          VectorsApart(arrays, testSuiteIndices, i);
        }
        ShuffleSuite(i, arrays, now);
        ghost var after := arrays[i][..];
        NextShuffled(orders, now, after, state, i);
        now := now[i := after];
      }
      VectorsAreValid(arrays, now);
    }

    /** Shuffles the tests of one suite. */
    method ShuffleSuite(i: nat, ghost arrays: seq<array<nat>>, ghost now: seq<seq<nat>>)
      requires i < |testSuites| == |arrays| == |now| && VectorsDiffer(arrays, testSuiteIndices)
      requires AllOrders(now) && AreVectors(arrays, now)
      modifies random, arrays[i]
      ensures IsShuffled(now[i], arrays[i][..], old(random.state)) &&
              random.state == StateAfter(old(random.state), |now[i]|)
      ensures AllOrders(now[i := arrays[i][..]]) && AreVectors(arrays, now[i := arrays[i][..]])
    {
      hide IsOrder, AllOrders, IsShuffled, StateAfter, TestSuite.Valid;
      assert testSuites[i].testIndices == arrays[i] && arrays[i][..] == now[i];
      OrderOf(now, i);
      testSuites[i].IsValid();
      testSuites[i].ShuffleTests(random);
      testSuites[i].ValidMeans();
      OrderReplaced(now, i, arrays[i][..]);
    }

    /** The suites' indices are in these vectors, which hold these numbers. */
    ghost predicate AreVectors(arrays: seq<array<nat>>, orders: seq<seq<nat>>)
      reads this, testSuites, arrays
    {
      && |arrays| == |orders| == |testSuites|
      && forall k :: 0 <= k < |testSuites| ==>
           && testSuites[k].testIndices == arrays[k] && arrays[k][..] == orders[k]
           && |testSuites[k].testInfoList| == |orders[k]|
    }

    lemma VectorsAreValid(arrays: seq<array<nat>>, orders: seq<seq<nat>>)
      requires AreVectors(arrays, orders) && AllOrders(orders)
      ensures TestOrders() == orders && forall k :: 0 <= k < |testSuites| ==> testSuites[k].Valid()
    {
      hide IsOrder, AllOrders;
      AreTestOrders(orders);
      forall k | 0 <= k < |testSuites| ensures testSuites[k].Valid() {
        OrderOf(orders, k);
      }
    }

    /** Shuffles the death test suites, the other suites, and the tests of every suite, each
        from the state of the generator that the one before left. Death test suites still
        come first, and every suite and every test still has its turn. */
    method ShuffleTests()
      requires Valid()
      modifies random, Arrays()
      ensures Valid()
      ensures var d, n, state := lastDeathTestSuite + 1, |testSuites|, old(random.state);
              && PartsShuffled(old(testSuiteIndices[..]), testSuiteIndices[..], state, d, n)
              && var next := StateAfter(StateAfter(state, d), n - d);
                 && ShuffledUpTo(old(TestOrders()), TestOrders(), next, n)
                 && random.state == StateAfterEach(next, old(TestOrders()), n)
    {
      hide *;
      ValidMeans();
      ghost var before, start, d, n := testSuiteIndices[..], random.state, lastDeathTestSuite + 1, |testSuites|;
      ghost var orders := TestOrders();
      ShuffleRange(random, 0, lastDeathTestSuite + 1, testSuiteIndices);
      ghost var between := testSuiteIndices[..];
      ShuffleRange(random, lastDeathTestSuite + 1, |testSuites|, testSuiteIndices);
      OrderKept(before, between, testSuiteIndices[..], d, n);
      InParts(before, between, testSuiteIndices[..], start, d, n);
      AreTestOrders(orders);
      ShuffleEachSuite();
      IsValid();
    }

    /** The order before the first shuffle is back. */
    method UnshuffleTests()
      requires Valid()
      modifies Arrays()
      ensures Valid() && InOrder()
    {
      hide IsOrder, IsDeathTestSuite, UpTo, WellNamed, DeathSuitesFirst;
      for i := 0 to |testSuites|
        invariant forall k :: 0 <= k < |testSuites| ==> testSuites[k].Valid()
        invariant forall k :: 0 <= k < i ==> testSuites[k].InOrder()
        invariant forall k :: 0 <= k < i ==> testSuiteIndices[k] == k
      {
        testSuites[i].UnshuffleTests();
        testSuiteIndices[i] := i;
      }
      IsUpTo(testSuiteIndices[..]);
      IsUnshuffled();
    }

    // ---- the order of running ------------------------------------------------------------

    /** The suite that runs in the i-th place. */
    function GetMutableSuiteCase(i: int): (suite: TestSuite?)
      requires Valid()
      reads this, testSuites, Arrays()
      ensures suite != null <==> 0 <= i < |testSuites|
    {
      OrderMeans(testSuiteIndices[..], lastDeathTestSuite + 1, |testSuites|);
      if 0 <= i < testSuiteIndices.Length then testSuites[testSuiteIndices[..][i]] else null
    }

    /** The suite that reports give as the i-th: it takes the i-th of the list, whatever
        the index says. */
    function ReportedTestSuite(i: int): TestSuite?
      requires Valid()
      reads this, testSuites, Arrays()
    {
      if 0 <= i < testSuiteIndices.Length then testSuites[i] else null
    }

    lemma HasItsPlace(k: nat)
      requires Valid() && k < |testSuites|
      ensures testSuiteIndices.Length == |testSuites| && multiset(testSuiteIndices[..])[k] == 1
    {
      OrderMeans(testSuiteIndices[..], lastDeathTestSuite + 1, |testSuites|);
    }

    /** However often suites were shuffled, each has a place to run in. */
    lemma EverySuiteRuns(suite: TestSuite) returns (i: nat)
      requires Valid() && suite in testSuites
      ensures GetMutableSuiteCase(i) == suite
    {
      hide *;
      var k: nat :| k < |testSuites| && testSuites[k] == suite;
      HasItsPlace(k);
      i := PlaceOf(testSuiteIndices[..], k);
      RunAndReport(i);
    }

    /** No suite runs twice, and no death test suite runs after another suite. */
    lemma DeathTestSuitesRunFirst(i: nat, j: nat)
      requires Valid() && i < j < |testSuites|
      ensures GetMutableSuiteCase(i) != GetMutableSuiteCase(j)
      ensures IsDeathTestSuite(GetMutableSuiteCase(j).name) ==> IsDeathTestSuite(GetMutableSuiteCase(i).name)
    {
      var indices := testSuiteIndices[..];
      OrderMeans(indices, lastDeathTestSuite + 1, |testSuites|);
      hide IsOrder, ArraysDiffer, IsDeathTestSuite;
      NotTwice(indices, i, j);
      assert testSuites[indices[i]].name != testSuites[indices[j]].name;
    }

    lemma RunAndReport(i: nat)
      requires Valid() && i < testSuiteIndices.Length
      ensures i < |testSuites| && testSuiteIndices[..][i] < |testSuites|
      ensures GetMutableSuiteCase(i) == testSuites[testSuiteIndices[..][i]] && ReportedTestSuite(i) == testSuites[i]
    {
      OrderMeans(testSuiteIndices[..], lastDeathTestSuite + 1, |testSuites|);
    }

    /** The suites are reported in the order they run in exactly if they are not shuffled. */
    lemma ReportsFollowTheRun()
      requires Valid()
      ensures (forall i: int :: GetMutableSuiteCase(i) == ReportedTestSuite(i)) <==>
              testSuiteIndices[..] == UpTo(0, |testSuites|)
    {
      var indices := testSuiteIndices[..];
      OrderMeans(indices, lastDeathTestSuite + 1, |testSuites|);
      if forall i: int :: GetMutableSuiteCase(i) == ReportedTestSuite(i) {
        forall k | 0 <= k < |indices| ensures indices[k] == k {
          assert GetMutableSuiteCase(k) == ReportedTestSuite(k);
        }
        IsUpTo(indices);
      }
    }
  }

  lemma PlaceOf(indices: seq<nat>, k: nat) returns (i: nat)
    requires multiset(indices)[k] == 1
    ensures i < |indices| && indices[i] == k
  {
    assert k in indices;
    i :| 0 <= i < |indices| && indices[i] == k;
  }

  lemma NotTwice(indices: seq<nat>, i: nat, j: nat)
    requires i < j < |indices| && multiset(indices)[indices[i]] == 1
    ensures indices[i] != indices[j]
  {
    assert indices == indices[..i] + [indices[i]] + indices[i + 1..j] + [indices[j]] + indices[j + 1..];
  }

  /** Two suites of the same kind, shuffled from generator state 1, run in the other order
      than they are reported in. */
  method RunAgainstTheReports(impl: UnitTestImpl)
    requires impl.Valid() && impl.InOrder() && impl.random.state == 1
    requires |impl.testSuites| == 2 && (impl.lastDeathTestSuite == -1 || impl.lastDeathTestSuite == 1)
    modifies impl.random, impl.Arrays()
    ensures impl.Valid() && impl.testSuites == old(impl.testSuites)
    ensures impl.GetMutableSuiteCase(0) == impl.testSuites[1] && impl.ReportedTestSuite(0) == impl.testSuites[0]
  {
    hide *;
    impl.ValidMeans();
    impl.UnshuffledMeans();
    impl.ShuffleTests();
    TwoSwapped(impl.testSuiteIndices[..], impl.lastDeathTestSuite + 1);
    impl.ValidMeans();
    impl.RunAndReport(0);
  }

  lemma TwoSwapped(after: seq<nat>, d: nat)
    requires (d == 0 || d == 2) && PartsShuffled(UpTo(0, 2), after, 1, d, 2)
    ensures after == [1, 0]
  {
    assert NextState(1) == 1103527590 && Draws(1, 2) == [0];
    assert Arranged(UpTo(0, 2), 0, 2, [0]) == Swapped(UpTo(0, 2), 0, 1) == [1, 0];
  }
}
