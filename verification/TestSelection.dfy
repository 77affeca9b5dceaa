/**
  Which tests run: the filter, the rule for disabled tests, and the shards that
  split the runnable tests among processes.
 */
module Sharding {

  /** Shards are dealt out by the number of runnable tests seen so far. */
  predicate ShouldRunTestOnShard(totalShards: nat, shardIndex: nat, testId: nat)
    requires totalShards > 0
  {
    testId % totalShards == shardIndex
  }

  /** How many of the first k tests are runnable. */
  function RunnableBefore(runnable: seq<bool>, k: nat): (n: nat)
    requires k <= |runnable|
    ensures n <= k
  {
    if k == 0 then 0 else RunnableBefore(runnable, k - 1) + (if runnable[k - 1] then 1 else 0)
  }

  /** Test k runs on a shard: it is runnable, and its id falls to that shard. */
  predicate RunsOn(runnable: seq<bool>, totalShards: nat, shardIndex: nat, k: nat)
    requires totalShards > 0 && k < |runnable|
  {
    runnable[k] && ShouldRunTestOnShard(totalShards, shardIndex, RunnableBefore(runnable, k))
  }

  /** Every runnable test runs on exactly one shard, every other test on none. */
  lemma ShardsPartition(runnable: seq<bool>, totalShards: nat, k: nat)
    requires totalShards > 0 && k < |runnable|
    ensures runnable[k] ==> exists s :: 0 <= s < totalShards && RunsOn(runnable, totalShards, s, k)
    ensures forall s: nat, t: nat :: RunsOn(runnable, totalShards, s, k) && RunsOn(runnable, totalShards, t, k) ==>
            s == t
    ensures forall s :: 0 <= s < totalShards && RunsOn(runnable, totalShards, s, k) ==> runnable[k]
  {
    if runnable[k] {
      assert RunsOn(runnable, totalShards, RunnableBefore(runnable, k) % totalShards, k);
    }
  }

  /** How many of the first k tests run on the shard. */
  function ShardSize(runnable: seq<bool>, totalShards: nat, shardIndex: nat, k: nat): nat
    requires totalShards > 0 && k <= |runnable|
  {
    if k == 0 then 0
    else
      ShardSize(runnable, totalShards, shardIndex, k - 1) +
      (if RunsOn(runnable, totalShards, shardIndex, k - 1) then 1 else 0)
  }

  /** A shard gets the whole rounds dealt so far, and one test more if its turn has
      come in the current round. */
  lemma {:induction false} ShardSizeIsFair(runnable: seq<bool>, totalShards: nat, shardIndex: nat, k: nat)
    requires shardIndex < totalShards && k <= |runnable|
    ensures var r := RunnableBefore(runnable, k);
            ShardSize(runnable, totalShards, shardIndex, k) ==
            r / totalShards + (if shardIndex < r % totalShards then 1 else 0)
  {
    if k > 0 {
      ShardSizeIsFair(runnable, totalShards, shardIndex, k - 1);
      NextInRound(RunnableBefore(runnable, k - 1), totalShards);
    }
  }

  lemma NextInRound(r: nat, n: nat)
    requires n > 0
    ensures if r % n == n - 1 then (r + 1) / n == r / n + 1 && (r + 1) % n == 0
            else (r + 1) / n == r / n && (r + 1) % n == r % n + 1
  {
    var q, m := r / n, r % n;
    var q', m' := (r + 1) / n, (r + 1) % n;
    assert (q' - q) * n == m - m' + 1 by {
      assert r == q * n + m && r + 1 == q' * n + m';
    }
    SmallMultiple(q' - q, n);
  }

  /** A multiple of n above -n and not above n is 0 or n. */
  lemma SmallMultiple(d: int, n: int)
    requires n > 0 && -n < d * n <= n
    ensures d == 0 || d == 1
  {
  }

  /** The sizes of any two shards differ by at most one. */
  lemma ShardsAreBalanced(runnable: seq<bool>, totalShards: nat, s: nat, t: nat)
    requires s < totalShards && t < totalShards
    ensures -1 <= ShardSize(runnable, totalShards, s, |runnable|) - ShardSize(runnable, totalShards, t, |runnable|) <= 1
  {
    ShardSizeIsFair(runnable, totalShards, s, |runnable|);
    ShardSizeIsFair(runnable, totalShards, t, |runnable|);
  }

  /** The sizes of the first n shards, added up. */
  function SizesUpTo(runnable: seq<bool>, totalShards: nat, n: nat, k: nat): nat
    requires totalShards > 0 && k <= |runnable|
  {
    if n == 0 then 0 else SizesUpTo(runnable, totalShards, n - 1, k) + ShardSize(runnable, totalShards, n - 1, k)
  }

  lemma {:induction false} SizesUpToStep(runnable: seq<bool>, totalShards: nat, n: nat, k: nat)
    requires n <= totalShards && 0 < k <= |runnable| && totalShards > 0
    ensures SizesUpTo(runnable, totalShards, n, k) ==
            SizesUpTo(runnable, totalShards, n, k - 1) +
            (if runnable[k - 1] && RunnableBefore(runnable, k - 1) % totalShards < n then 1 else 0)
  {
    if n > 0 {
      SizesUpToStep(runnable, totalShards, n - 1, k);
    }
  }

  /** No test is lost and none runs twice: the shards together hold all runnable tests. */
  lemma {:induction false} ShardsCoverAll(runnable: seq<bool>, totalShards: nat, k: nat)
    requires totalShards > 0 && k <= |runnable|
    ensures SizesUpTo(runnable, totalShards, totalShards, k) == RunnableBefore(runnable, k)
  {
    if k > 0 {
      ShardsCoverAll(runnable, totalShards, k - 1);
      SizesUpToStep(runnable, totalShards, totalShards, k);
    } else {
      NothingYet(runnable, totalShards, totalShards);
    }
  }

  lemma {:induction false} NothingYet(runnable: seq<bool>, totalShards: nat, n: nat)
    requires totalShards > 0
    ensures SizesUpTo(runnable, totalShards, n, 0) == 0
  {
    if n > 0 {
      NothingYet(runnable, totalShards, n - 1);
    }
  }
}

module TestSelection {
  import opened Glob
  import opened TestFilter
  import opened Sharding

  const DISABLE_TEST_FILTER := "DISABLED_*:*/DISABLED_*"

  /** The filter string, the patterns of disabled tests, and whether to run those too. */
  datatype Rules = Rules(filter: string, disableFilter: string, alsoDisabled: bool)

  datatype ShardingProtocol = Ignore | Honor(totalShards: nat, shardIndex: nat) {
    ghost predicate Valid() {
      Honor? ==> shardIndex < totalShards
    }

    /** The test with the given number of runnable tests before it is left to another process. */
    predicate Elsewhere(id: nat)
      requires Valid()
    {
      Honor? && !ShouldRunTestOnShard(totalShards, shardIndex, id)
    }
  }

  /** What is recorded about a test; a suite keeps the records of its tests. */
  datatype TestInfo = TestInfo(name: string, isDisabled: bool, matchesFilter: bool, isInAnotherShard: bool,
                               shouldRun: bool)

  class TestSuite {
    const name: string
    var tests: seq<TestInfo>
    var shouldRun: bool

    constructor (name: string, tests: seq<TestInfo>)
      ensures this.name == name && this.tests == tests
    {
      this.name := name;
      this.tests := tests;
    }

    ghost function Record(): SuiteRecord
      reads this
    {
      SuiteRecord(name, tests, shouldRun)
    }
  }

  /** The state of a suite at one time. */
  datatype SuiteRecord = SuiteRecord(name: string, tests: seq<TestInfo>, shouldRun: bool)

  ghost function Records(suites: seq<TestSuite>): (records: seq<SuiteRecord>)
    reads suites
    ensures |records| == |suites| && forall i :: 0 <= i < |suites| ==> records[i] == suites[i].Record()
  {
    seq(|suites|, i requires 0 <= i < |suites| reads suites => suites[i].Record())
  }

  lemma OneRecordChanged(suites: seq<TestSuite>, before: seq<SuiteRecord>, i: nat)
    requires i < |suites| == |before|
    requires forall h :: 0 <= h < |suites| && h != i ==> suites[h].Record() == before[h]
    ensures Records(suites) == before[i := suites[i].Record()]
  {
  }

  // ---- what is to be decided ---------------------------------------------------------

  /** A name is disabled by its start or by the start of a part after a slash. */
  ghost predicate NamedDisabled(name: string) {
    "DISABLED_" <= name || Contains(name, "/DISABLED_")
  }

  lemma DisabledPatterns(first: string, second: string)
    requires first == "DISABLED_" + "*" && second == "*" + ("/DISABLED_" + "*")
    ensures DISABLE_TEST_FILTER == first + [':'] + second && ':' !in first && ':' !in second
  {
  }

  /** The filter for disabled tests means those names. */
  lemma DisabledByName(name: string)
    ensures SomeMatches(Split(DISABLE_TEST_FILTER, ':'), name) <==> NamedDisabled(name)
  {
    var first, second := "DISABLED_" + "*", "*" + ("/DISABLED_" + "*");
    DisabledPatterns(first, second);
    TextThenStar("DISABLED_", name);
    StarTextStar("/DISABLED_", name);
    hide *;
    TwoPatterns(first, second, name);
  }

  ghost predicate Disabled(rules: Rules, suiteName: string, testName: string) {
    var patterns := Split(rules.disableFilter, ':');
    SomeMatches(patterns, suiteName) || SomeMatches(patterns, testName)
  }

  ghost predicate Runnable(rules: Rules, suiteName: string, testName: string) {
    && (rules.alsoDisabled || !Disabled(rules, suiteName, testName))
    && Selected(rules.filter, suiteName + "." + testName)
  }

  /** The record of a test says what the filter, the disabled rule and the shard imply. */
  ghost predicate Decided(rules: Rules, protocol: ShardingProtocol, suiteName: string, test: TestInfo, id: nat)
    requires protocol.Valid()
  {
    && (test.isDisabled <==> Disabled(rules, suiteName, test.name))
    && (test.matchesFilter <==> Selected(rules.filter, suiteName + "." + test.name))
    && (test.isInAnotherShard <==> protocol.Elsewhere(id))
    && (test.shouldRun <==> Runnable(rules, suiteName, test.name) && !protocol.Elsewhere(id))
  }

  /** Whether each test of a suite is runnable; it depends on their names only. */
  ghost function Flags(rules: Rules, suiteName: string, tests: seq<TestInfo>): (flags: seq<bool>)
    ensures |flags| == |tests|
  {
    if tests == [] then []
    else
      Flags(rules, suiteName, tests[..|tests| - 1]) + [Runnable(rules, suiteName, tests[|tests| - 1].name)]
  }

  /** Every test is decided by the number of runnable tests before it: `id` before the
      suite, and those before it in the suite. */
  ghost predicate AllDecided(rules: Rules, protocol: ShardingProtocol, suiteName: string, tests: seq<TestInfo>, id: nat)
    requires protocol.Valid()
  {
    tests != [] ==>
      var n := |tests| - 1;
      && Decided(rules, protocol, suiteName, tests[n], id + Count(Flags(rules, suiteName, tests[..n])))
      && AllDecided(rules, protocol, suiteName, tests[..n], id)
  }

  function Count(flags: seq<bool>): nat {
    RunnableBefore(flags, |flags|)
  }

  /** How many tests are recorded as to be run. */
  function ToRun(tests: seq<TestInfo>): nat {
    if tests == [] then 0 else ToRun(tests[..|tests| - 1]) + (if tests[|tests| - 1].shouldRun then 1 else 0)
  }

  ghost predicate SameNames(tests: seq<TestInfo>, tests': seq<TestInfo>) {
    |tests| == |tests'| && forall j :: 0 <= j < |tests| ==> tests[j].name == tests'[j].name
  }

  lemma FlagsSnoc(flags: seq<bool>, flag: bool)
    ensures Count(flags + [flag]) == Count(flags) + (if flag then 1 else 0)
  {
    CountOfPrefix(flags, [flag], |flags|);
  }

  lemma {:induction false} CountOfPrefix(a: seq<bool>, b: seq<bool>, k: nat)
    requires k <= |a|
    ensures RunnableBefore(a + b, k) == RunnableBefore(a, k)
  {
    if k > 0 {
      CountOfPrefix(a, b, k - 1);
    }
  }

  // ---- the program ----------------------------------------------------------------------

  /** Decides one test; `id` is the number of runnable tests before it. */
  method FilterTest(suiteName: string, test: TestInfo, gtestFilter: PositiveAndNegativeUnitTestFilter,
                    disableFilter: UnitTestFilter, rules: Rules, protocol: ShardingProtocol, id: nat)
    returns (isRunnable: bool, test': TestInfo)
    requires gtestFilter.Represents(rules.filter) && disableFilter.Holds(Split(rules.disableFilter, ':'))
    requires protocol.Valid()
    ensures test'.name == test.name && Decided(rules, protocol, suiteName, test', id)
    ensures isRunnable <==> Runnable(rules, suiteName, test.name)
  {
    ghost var patterns := Split(rules.disableFilter, ':');
    var disabled := disableFilter.MatchesName(suiteName, patterns);
    if !disabled {
      disabled := disableFilter.MatchesName(test.name, patterns);
    }
    var matches := gtestFilter.MatchesTest(suiteName, test.name, rules.filter);
    isRunnable := (rules.alsoDisabled || !disabled) && matches;
    var elsewhere := protocol.Honor? && !ShouldRunTestOnShard(protocol.totalShards, protocol.shardIndex, id);
    test' := TestInfo(test.name, disabled, matches, elsewhere, isRunnable && !elsewhere);
  }

  /** Decides a list of tests; `id` runnable tests come before it. */
  method FilterList(suiteName: string, tests: seq<TestInfo>, gtestFilter: PositiveAndNegativeUnitTestFilter,
                    disableFilter: UnitTestFilter, rules: Rules, protocol: ShardingProtocol, id: nat)
    returns (tests': seq<TestInfo>, numRunnable: nat, numSelected: nat)
    requires gtestFilter.Represents(rules.filter) && disableFilter.Holds(Split(rules.disableFilter, ':'))
    requires protocol.Valid()
    ensures SameNames(tests, tests') && AllDecided(rules, protocol, suiteName, tests', id)
    ensures numRunnable == Count(Flags(rules, suiteName, tests')) && numSelected == ToRun(tests')
  {
    tests', numRunnable, numSelected := [], 0, 0;
    for j := 0 to |tests|
      invariant SameNames(tests[..j], tests') && AllDecided(rules, protocol, suiteName, tests', id)
      invariant numRunnable == Count(Flags(rules, suiteName, tests')) && numSelected == ToRun(tests')
    {
      var isRunnable, test := FilterTest(suiteName, tests[j], gtestFilter, disableFilter, rules, protocol,
        id + numRunnable);
      TestAdded(rules, protocol, suiteName, tests', test, id, isRunnable);
      tests' := tests' + [test];
      numRunnable := numRunnable + (if isRunnable then 1 else 0);
      numSelected := numSelected + (if test.shouldRun then 1 else 0);
    }
  }

  /** Decides the tests of one suite; `id` runnable tests come before them. */
  method FilterSuite(suite: TestSuite, gtestFilter: PositiveAndNegativeUnitTestFilter,
                     disableFilter: UnitTestFilter, rules: Rules, protocol: ShardingProtocol, id: nat)
    returns (numRunnable: nat, numSelected: nat)
    requires gtestFilter.Represents(rules.filter) && disableFilter.Holds(Split(rules.disableFilter, ':'))
    requires protocol.Valid()
    modifies suite
    ensures SuiteDecided(rules, protocol, old(suite.Record()), suite.Record(), id)
    ensures numRunnable == Count(Flags(rules, suite.name, old(suite.tests))) && numSelected == ToRun(suite.tests)
  {
    var tests;
    tests, numRunnable, numSelected := FilterList(suite.name, suite.tests, gtestFilter, disableFilter, rules,
      protocol, id);
    FlagsSameNames(rules, suite.name, suite.tests, tests);
    suite.tests := tests;
    suite.shouldRun := numSelected > 0;
  }

  lemma {:induction false} FlagsSameNames(rules: Rules, suiteName: string, tests: seq<TestInfo>, tests': seq<TestInfo>)
    requires SameNames(tests, tests')
    ensures Flags(rules, suiteName, tests) == Flags(rules, suiteName, tests')
    decreases |tests|
  {
    if tests != [] {
      FlagsSameNames(rules, suiteName, tests[..|tests| - 1], tests'[..|tests| - 1]);
    }
  }

  lemma TestAdded(rules: Rules, protocol: ShardingProtocol, suiteName: string, tests: seq<TestInfo>,
                  test: TestInfo, id: nat, runnable: bool)
    requires protocol.Valid() && AllDecided(rules, protocol, suiteName, tests, id)
    requires Decided(rules, protocol, suiteName, test, id + Count(Flags(rules, suiteName, tests)))
    requires runnable <==> Runnable(rules, suiteName, test.name)
    ensures AllDecided(rules, protocol, suiteName, tests + [test], id)
    ensures Count(Flags(rules, suiteName, tests + [test])) == Count(Flags(rules, suiteName, tests)) +
            (if runnable then 1 else 0)
    ensures ToRun(tests + [test]) == ToRun(tests) + (if test.shouldRun then 1 else 0)
  {
    assert (tests + [test])[..|tests|] == tests;
    FlagsSnoc(Flags(rules, suiteName, tests), Runnable(rules, suiteName, test.name));
  }

  /** How many runnable tests the first i suites have. */
  ghost function RunnableInSuites(rules: Rules, records: seq<SuiteRecord>, i: nat): nat
    requires i <= |records|
  {
    if i == 0 then 0
    else RunnableInSuites(rules, records, i - 1) + Count(Flags(rules, records[i - 1].name, records[i - 1].tests))
  }

  ghost function ToRunInSuites(records: seq<SuiteRecord>): nat {
    if records == [] then 0
    else ToRunInSuites(records[..|records| - 1]) + ToRun(records[|records| - 1].tests)
  }

  /** The same tests, all decided; and the suite runs if one of them does. */
  ghost predicate SuiteDecided(rules: Rules, protocol: ShardingProtocol, before: SuiteRecord, after: SuiteRecord,
                        id: nat)
    requires protocol.Valid()
  {
    && before.name == after.name && SameNames(before.tests, after.tests)
    && AllDecided(rules, protocol, after.name, after.tests, id)
    && (after.shouldRun <==> ToRun(after.tests) > 0)
  }

  ghost predicate AllSuitesDecided(rules: Rules, protocol: ShardingProtocol, before: seq<SuiteRecord>,
                        after: seq<SuiteRecord>)
    requires protocol.Valid() && |after| <= |before|
  {
    forall i :: 0 <= i < |after| ==> SuiteDecided(rules, protocol, before[i], after[i],
      RunnableInSuites(rules, before, i))
  }

  /** The first i suites are decided, the others are as they were; the numbers count the
      runnable tests of the first i suites and those of them to run. */
  ghost predicate DecidedUpTo(rules: Rules, protocol: ShardingProtocol, before: seq<SuiteRecord>,
                              now: seq<SuiteRecord>, i: nat, numRunnable: nat, numSelected: nat)
    requires protocol.Valid()
  {
    && i <= |now| == |before|
    && AllSuitesDecided(rules, protocol, before, now[..i])
    && (forall k :: i <= k < |now| ==> now[k] == before[k])
    && numRunnable == RunnableInSuites(rules, before, i) && numSelected == ToRunInSuites(now[..i])
  }

  lemma NoneDecided(rules: Rules, protocol: ShardingProtocol, records: seq<SuiteRecord>)
    requires protocol.Valid()
    ensures DecidedUpTo(rules, protocol, records, records, 0, 0, 0)
  {
  }

  lemma NextDecided(rules: Rules, protocol: ShardingProtocol, before: seq<SuiteRecord>, now: seq<SuiteRecord>, i: nat,
                    numRunnable: nat, numSelected: nat, record: SuiteRecord)
    requires protocol.Valid() && i < |now| && DecidedUpTo(rules, protocol, before, now, i, numRunnable, numSelected)
    requires SuiteDecided(rules, protocol, now[i], record, numRunnable)
    ensures DecidedUpTo(rules, protocol, before, now[i := record], i + 1,
                        numRunnable + Count(Flags(rules, now[i].name, now[i].tests)), numSelected + ToRun(record.tests))
  {
    hide AllSuitesDecided, SuiteDecided, RunnableInSuites, ToRunInSuites, ToRun, Count, Flags;
    PrefixReplaced(now, i, record);
    RunnableNext(rules, before, i);
    SuiteAppended(rules, protocol, before, now[..i], record, numRunnable);
    ToRunAppended(now[..i], record);
  }

  lemma PrefixReplaced<T>(s: seq<T>, i: nat, x: T)
    requires i < |s|
    ensures s[i := x][..i + 1] == s[..i] + [x]
  {
  }

  lemma RunnableNext(rules: Rules, records: seq<SuiteRecord>, i: nat)
    requires i < |records|
    ensures RunnableInSuites(rules, records, i + 1) ==
            RunnableInSuites(rules, records, i) + Count(Flags(rules, records[i].name, records[i].tests))
  {
  }

  lemma SuiteAppended(rules: Rules, protocol: ShardingProtocol, before: seq<SuiteRecord>, after: seq<SuiteRecord>,
                      record: SuiteRecord, id: nat)
    requires protocol.Valid() && |after| < |before| && AllSuitesDecided(rules, protocol, before, after)
    requires id == RunnableInSuites(rules, before, |after|)
    requires SuiteDecided(rules, protocol, before[|after|], record, id)
    ensures AllSuitesDecided(rules, protocol, before, after + [record])
  {
    hide SuiteDecided, RunnableInSuites;
  }

  lemma AllAreDecided(rules: Rules, protocol: ShardingProtocol, before: seq<SuiteRecord>, now: seq<SuiteRecord>,
                      numRunnable: nat, numSelected: nat)
    requires protocol.Valid() && DecidedUpTo(rules, protocol, before, now, |now|, numRunnable, numSelected)
    ensures |now| == |before| && AllSuitesDecided(rules, protocol, before, now) && numSelected == ToRunInSuites(now)
  {
    assert now[..|now|] == now;
  }

  lemma ToRunAppended(after: seq<SuiteRecord>, record: SuiteRecord)
    ensures ToRunInSuites(after + [record]) == ToRunInSuites(after) + ToRun(record.tests)
  {
    assert (after + [record])[..|after|] == after;
  }

  /** Decides the tests of the i-th suite. */
  method FilterSuiteAt(suites: seq<TestSuite>, i: nat, gtestFilter: PositiveAndNegativeUnitTestFilter,
                       disableFilter: UnitTestFilter, rules: Rules, protocol: ShardingProtocol, id: nat)
    returns (numRunnable: nat, numSelected: nat)
    requires gtestFilter.Represents(rules.filter) && disableFilter.Holds(Split(rules.disableFilter, ':'))
    requires protocol.Valid() && i < |suites|
    requires forall h, i :: 0 <= h < i < |suites| ==> suites[h] != suites[i]
    modifies suites[i]
    ensures Records(suites) == old(Records(suites))[i := suites[i].Record()]
    ensures SuiteDecided(rules, protocol, old(Records(suites))[i], suites[i].Record(), id)
    ensures numRunnable == Count(Flags(rules, old(Records(suites))[i].name, old(Records(suites))[i].tests))
    ensures numSelected == ToRun(suites[i].Record().tests)
  {
    hide SuiteDecided, Count, Flags, ToRun;
    numRunnable, numSelected := FilterSuite(suites[i], gtestFilter, disableFilter, rules, protocol, id);
    OneRecordChanged(suites, old(Records(suites)), i);
  }

  /** Decides every test of every suite and counts those that are to run here. */
  method FilterSuites(suites: seq<TestSuite>, gtestFilter: PositiveAndNegativeUnitTestFilter,
                      disableFilter: UnitTestFilter, rules: Rules, protocol: ShardingProtocol)
    returns (numSelected: nat)
    requires gtestFilter.Represents(rules.filter) && disableFilter.Holds(Split(rules.disableFilter, ':'))
    requires protocol.Valid()
    requires forall h, i :: 0 <= h < i < |suites| ==> suites[h] != suites[i]
    modifies suites
    ensures AllSuitesDecided(rules, protocol, old(Records(suites)), Records(suites))
    ensures numSelected == ToRunInSuites(Records(suites))
  {
    hide *;
    ghost var before := Records(suites);
    var numRunnable: nat := 0;
    numSelected := 0;
    NoneDecided(rules, protocol, before);
    for i := 0 to |suites|
      invariant DecidedUpTo(rules, protocol, before, Records(suites), i, numRunnable, numSelected)
    {
      ghost var now := Records(suites);
      var runnable, selected := FilterSuiteAt(suites, i, gtestFilter, disableFilter, rules, protocol, numRunnable);
      NextDecided(rules, protocol, before, now, i, numRunnable, numSelected, suites[i].Record());
      numRunnable := numRunnable + runnable;
      numSelected := numSelected + selected;
    }
    AllAreDecided(rules, protocol, before, Records(suites), numRunnable, numSelected);
  }

  method FilterTestsByRules(suites: seq<TestSuite>, rules: Rules, protocol: ShardingProtocol)
    returns (numSelected: nat)
    requires protocol.Valid()
    requires forall h, i :: 0 <= h < i < |suites| ==> suites[h] != suites[i]
    modifies suites
    ensures AllSuitesDecided(rules, protocol, old(Records(suites)), Records(suites))
    ensures numSelected == ToRunInSuites(Records(suites))
  {
    var gtestFilter := MakePositiveAndNegativeFilter(rules.filter);
    var disableFilter := MakeFilter(rules.disableFilter);
    numSelected := FilterSuites(suites, gtestFilter, disableFilter, rules, protocol);
  }

  /** The rules as the flags give them. */
  method FilterTests(suites: seq<TestSuite>, filter: string, alsoDisabled: bool, protocol: ShardingProtocol)
    returns (numSelected: nat)
    requires protocol.Valid()
    requires forall h, i :: 0 <= h < i < |suites| ==> suites[h] != suites[i]
    modifies suites
    ensures AllSuitesDecided(Rules(filter, DISABLE_TEST_FILTER, alsoDisabled), protocol, old(Records(suites)),
            Records(suites))
    ensures numSelected == ToRunInSuites(Records(suites))
    ensures forall i, j :: 0 <= i < |suites| && 0 <= j < |suites[i].tests| ==>
              FlaggedByName(filter, alsoDisabled, suites[i].name, suites[i].tests[j])
  {
    ghost var rules := Rules(filter, DISABLE_TEST_FILTER, alsoDisabled);
    numSelected := FilterTestsByRules(suites, Rules(filter, DISABLE_TEST_FILTER, alsoDisabled), protocol);
    ghost var before, after := old(Records(suites)), Records(suites);
    hide Split, Matches, AllSuitesDecided;
    forall i, j | 0 <= i < |suites| && 0 <= j < |suites[i].tests|
      ensures FlaggedByName(filter, alsoDisabled, suites[i].name, suites[i].tests[j])
    {
      assert after[i].name == suites[i].name && after[i].tests == suites[i].tests;
      TestIsDecided(rules, protocol, before, after, i, j);
    }
  }

  /** What the names of a suite and a test say about its flags. */
  ghost predicate FlaggedByName(filter: string, alsoDisabled: bool, suiteName: string, test: TestInfo) {
    var disabled := NamedDisabled(suiteName) || NamedDisabled(test.name);
    && (test.isDisabled <==> disabled)
    && (test.matchesFilter <==> Selected(filter, suiteName + "." + test.name))
    && (test.shouldRun <==> test.matchesFilter && (alsoDisabled || !disabled) && !test.isInAnotherShard)
  }

  lemma TestIsDecided(rules: Rules, protocol: ShardingProtocol, before: seq<SuiteRecord>, after: seq<SuiteRecord>,
                      i: nat, j: nat)
    requires protocol.Valid() && |after| <= |before| && AllSuitesDecided(rules, protocol, before, after)
    requires i < |after| && j < |after[i].tests| && rules.disableFilter == DISABLE_TEST_FILTER
    ensures FlaggedByName(rules.filter, rules.alsoDisabled, after[i].name, after[i].tests[j])
  {
    assert SuiteDecided(rules, protocol, before[i], after[i], RunnableInSuites(rules, before, i));
    hide Split, Matches, SomeMatches, Selected, NamedDisabled;
    var id := DecidedAt(rules, protocol, after[i].name, after[i].tests, RunnableInSuites(rules, before, i), j);
    DisabledByName(after[i].name);
    DisabledByName(after[i].tests[j].name);
  }

  lemma {:induction false} DecidedAt(rules: Rules, protocol: ShardingProtocol, suiteName: string, tests: seq<TestInfo>,
                                     id: nat, j: nat) returns (before: nat)
    requires protocol.Valid() && AllDecided(rules, protocol, suiteName, tests, id) && j < |tests|
    ensures Decided(rules, protocol, suiteName, tests[j], before)
    decreases |tests|
  {
    hide Decided, Flags;
    var n := |tests| - 1;
    if j == n {
      before := id + Count(Flags(rules, suiteName, tests[..n]));
    } else {
      before := DecidedAt(rules, protocol, suiteName, tests[..n], id, j);
    }
  }

  // ---- the shards together -------------------------------------------------------------------

  /** Whether each test is runnable, for all tests in the order they are visited. */
  ghost function AllFlags(rules: Rules, records: seq<SuiteRecord>): seq<bool> {
    if records == [] then []
    else
      var last := records[|records| - 1];
      AllFlags(rules, records[..|records| - 1]) + Flags(rules, last.name, last.tests)
  }

  lemma {:induction false} ShardSizeOfPrefix(a: seq<bool>, b: seq<bool>, totalShards: nat, shardIndex: nat, k: nat)
    requires totalShards > 0 && k <= |a|
    ensures ShardSize(a + b, totalShards, shardIndex, k) == ShardSize(a, totalShards, shardIndex, k)
  {
    if k > 0 {
      ShardSizeOfPrefix(a, b, totalShards, shardIndex, k - 1);
      CountOfPrefix(a, b, k - 1);
    }
  }

  lemma ShardSizeSnoc(a: seq<bool>, flag: bool, totalShards: nat, shardIndex: nat)
    requires totalShards > 0
    ensures ShardSize(a + [flag], totalShards, shardIndex, |a| + 1) ==
            ShardSize(a, totalShards, shardIndex, |a|) +
            (if flag && ShouldRunTestOnShard(totalShards, shardIndex, Count(a)) then 1 else 0)
  {
    ShardSizeOfPrefix(a, [flag], totalShards, shardIndex, |a|);
    CountOfPrefix(a, [flag], |a|);
  }

  lemma ShardGrows(before: seq<bool>, flags: seq<bool>, flag: bool, totalShards: nat, shardIndex: nat)
    requires totalShards > 0
    ensures var all := before + flags;
            && Count(before + (flags + [flag])) == Count(all) + (if flag then 1 else 0)
            && Count(flags + [flag]) == Count(flags) + (if flag then 1 else 0)
            && ShardSize(before + (flags + [flag]), totalShards, shardIndex, |all| + 1) ==
               ShardSize(all, totalShards, shardIndex, |all|) +
               (if flag && ShouldRunTestOnShard(totalShards, shardIndex, Count(all)) then 1 else 0)
  {
    assert before + (flags + [flag]) == (before + flags) + [flag];
    ShardSizeSnoc(before + flags, flag, totalShards, shardIndex);
    FlagsSnoc(before + flags, flag);
    FlagsSnoc(flags, flag);
  }

  lemma {:induction false} SuiteOnShard(rules: Rules, protocol: ShardingProtocol, name: string,
                        tests: seq<TestInfo>, before: seq<bool>)
    requires protocol.Honor? && protocol.Valid()
    requires AllDecided(rules, protocol, name, tests, Count(before))
    ensures var flags := before + Flags(rules, name, tests);
            && Count(flags) == Count(before) + Count(Flags(rules, name, tests))
            && ShardSize(flags, protocol.totalShards, protocol.shardIndex, |flags|) ==
               ShardSize(before, protocol.totalShards, protocol.shardIndex, |before|) + ToRun(tests)
    decreases |tests|
  {
    if tests == [] {
      assert before + Flags(rules, name, tests) == before;
    } else {
      var n := |tests| - 1;
      SuiteOnShard(rules, protocol, name, tests[..n], before);
      ShardGrows(before, Flags(rules, name, tests[..n]), Runnable(rules, name, tests[n].name), protocol.totalShards,
        protocol.shardIndex);
    }
  }

  /** The number of tests this process selects is the size of its shard; so over all
      shards every runnable test is selected once, in shares as even as can be. */
  lemma {:induction false} SelectedIsShardSize(rules: Rules, protocol: ShardingProtocol, before: seq<SuiteRecord>,
                        after: seq<SuiteRecord>)
    requires protocol.Honor? && protocol.Valid() && |before| == |after|
    requires AllSuitesDecided(rules, protocol, before, after)
    ensures var flags := AllFlags(rules, before);
            && Count(flags) == RunnableInSuites(rules, before, |before|)
            && ToRunInSuites(after) == ShardSize(flags, protocol.totalShards, protocol.shardIndex, |flags|)
    decreases |before|
  {
    if before != [] {
      var n := |before| - 1;
      forall i | 0 <= i <= n ensures RunnableInSuites(rules, before[..n], i) == RunnableInSuites(rules, before, i) {
        RunnableInPrefix(rules, before, n, i);
      }
      SelectedIsShardSize(rules, protocol, before[..n], after[..n]);
      assert SuiteDecided(rules, protocol, before[n], after[n], RunnableInSuites(rules, before, n));
      FlagsSameNames(rules, before[n].name, before[n].tests, after[n].tests);
      SuiteOnShard(rules, protocol, before[n].name, after[n].tests, AllFlags(rules, before[..n]));
    }
  }

  lemma {:induction false} RunnableInPrefix(rules: Rules, records: seq<SuiteRecord>, n: nat, i: nat)
    requires i <= n <= |records|
    ensures RunnableInSuites(rules, records[..n], i) == RunnableInSuites(rules, records, i)
  {
    if i > 0 {
      RunnableInPrefix(rules, records, n, i - 1);
    }
  }
}
