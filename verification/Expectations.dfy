/**
  Mock expectations ordered by prerequisites: the three graph traversals, and what
  every sequence of calls keeps true of the call counts and retirements.
 */
module Expectations {
  import opened FiniteSets
  import opened Digraphs

  type PrerequisiteGraph = map<Expectation, set<Expectation>>

  /** Everything that x depends on, directly or not. */
  ghost function Prerequisites(g: PrerequisiteGraph, x: Expectation): (s: set<Expectation>)
    requires x in g
    ensures s <= g.Keys
  {
    Successors<Expectation>(g, x)
  }

  // ---- the state of a run ----------------------------------------------------------------------

  /** The prerequisite graph as it stands. */
  ghost function Graph(all: set<Expectation>): (g: PrerequisiteGraph)
    reads all`immediatePrerequisites
    ensures g.Keys == all
  {
    map e | e in all :: e.immediatePrerequisites
  }

  ghost function Counts(all: set<Expectation>): (c: map<Expectation, nat>)
    reads all`callCount
    ensures c.Keys == all
  {
    map e | e in all :: e.callCount
  }

  ghost function Satisfied(all: set<Expectation>): (s: set<Expectation>)
    reads all`callCount
    ensures s <= all
  {
    set e | e in all && e.IsSatisfied()
  }

  ghost function SatisfiedUncalled(all: set<Expectation>): (s: set<Expectation>)
    reads all`callCount
    ensures s <= Satisfied(all)
  {
    set e | e in all && e.IsSatisfied() && e.callCount == 0
  }

  ghost function Retired(all: set<Expectation>): (r: set<Expectation>)
    reads all`retired
    ensures r <= all
  {
    set e | e in all && e.retired
  }

  /** Nothing is retired before its prerequisites are. */
  ghost predicate RetiredClosed(all: set<Expectation>)
    reads all`immediatePrerequisites, all`retired
  {
    forall e: Expectation, p: Expectation :: e in Retired(all) && p in e.immediatePrerequisites ==> p in Retired(all)
  }

  /** Expectations that have been called, but not too often, depend only on expectations
      that are satisfied and retired. */
  ghost predicate CallsSettled(all: set<Expectation>)
    requires IsGraph(Graph(all))
    reads all`immediatePrerequisites, all`callCount, all`retired
  {
    forall e: Expectation :: e in all && 0 < e.callCount <= e.maxCalls ==>
           Prerequisites(Graph(all), e) <= Satisfied(all) && Prerequisites(Graph(all), e) <= Retired(all)
  }

  ghost predicate Sound(all: set<Expectation>)
    reads all`immediatePrerequisites, all`callCount, all`retired
  {
    && IsGraph(Graph(all)) && Acyclic(Graph(all))
    && RetiredClosed(all) && CallsSettled(all)
  }

  /** A new expectation is no prerequisite of anything and has not been used. */
  ghost predicate NewlyBuilt(e: Expectation, all: set<Expectation>)
    reads all`immediatePrerequisites, e
  {
    e.callCount == 0 && !e.retired && forall x: Expectation :: x in all ==> e !in x.immediatePrerequisites
  }

  // ---- expectations ----------------------------------------------------------------------------

  class Expectation {
    var immediatePrerequisites: set<Expectation>
    var callCount: nat
    var retired: bool
    const minCalls: nat
    const maxCalls: nat
    const retiresOnSaturation: bool

    constructor (minCalls: nat, maxCalls: nat, retiresOnSaturation: bool)
      ensures this.minCalls == minCalls && this.maxCalls == maxCalls && this.retiresOnSaturation == retiresOnSaturation
      ensures immediatePrerequisites == {} && callCount == 0 && !retired
    {
      this.minCalls := minCalls;
      this.maxCalls := maxCalls;
      this.retiresOnSaturation := retiresOnSaturation;
      immediatePrerequisites := {};
      callCount := 0;
      retired := false;
    }

    predicate IsSatisfied()
      reads this`callCount
    {
      minCalls <= callCount <= maxCalls
    }

    predicate IsSaturated()
      reads this`callCount
    {
      callCount >= maxCalls
    }

    method Retire(ghost all: set<Expectation>)
      requires this in all
      modifies this`retired
      ensures retired && Retired(all) == old(Retired(all)) + {this} && Graph(all) == old(Graph(all))
    {
      retired := true;
    }

    /** Retires everything this expectation depends on. */
    method RetireAllPreRequisites(ghost all: set<Expectation>)
      requires this in all && IsGraph(Graph(all)) && RetiredClosed(all)
      modifies all`retired
      ensures Retired(all) == old(Retired(all)) + Prerequisites(Graph(all), this)
      ensures RetiredClosed(all)
    {
      ghost var g := Graph(all);
      ghost var before := Retired(all);
      if retired {
        // we never retire an expectation until we have retired all its prerequisites
        ClosedSetHoldsPrerequisites(g, before, this);
        assert before + Prerequisites(g, this) == before;
        return;
      }
      assert Retiring(g, this, before, before, [this], {});
      hide Retiring, IsGraph, Retired, Graph, Prerequisites, RetiredClosed;
      var expectations := [this];
      while expectations != []
        invariant Graph(all) == g && Retiring(g, this, before, Retired(all), expectations, {})
        decreases all - Retired(all), |expectations|
      {
        var exp := expectations[|expectations| - 1];
        PopToRetire(g, this, before, Retired(all), expectations);
        expectations := expectations[..|expectations| - 1];
        ghost var had, left := Retired(all), |expectations|;
        var rest := exp.immediatePrerequisites;
        assert g[exp] == rest;
        while rest != {}
          invariant Graph(all) == g && Retiring(g, this, before, Retired(all), expectations, {exp})
          invariant rest <= g[exp] && g[exp] - rest <= Retired(all)
          invariant had <= Retired(all) && (had == Retired(all) ==> |expectations| == left)
          decreases rest
        {
          var next :| next in rest;
          rest := rest - {next};
          if !next.retired {
            PushToRetire(g, this, before, Retired(all), expectations, exp, next);
            next.Retire(all);
            expectations := expectations + [next];
          }
        }
        RetiredBelow(g, this, before, Retired(all), expectations, exp);
      }
      RetiringDone(g, this, before, Retired(all));
      RetiredAreClosed(all);
    }

    /** Whether everything this expectation depends on is satisfied. Keeps no record of
        what it has seen, so that it needs a graph without cycles to end. */
    method AllPrerequisitesAreSatisfied(ghost all: set<Expectation>) returns (satisfied: bool)
      requires this in all && IsGraph(Graph(all)) && Acyclic(Graph(all))
      ensures satisfied <==> Prerequisites(Graph(all), this) <= Satisfied(all)
    {
      ghost var g, pass := Graph(all), Satisfied(all);
      ghost var visited: set<Expectation> := {};
      var expectations := [this];
      assert Exploring(g, pass, this, visited, expectations);
      hide Exploring, Pushed;
      while expectations != []
        invariant Exploring(g, pass, this, visited, expectations)
        invariant forall x: Expectation :: x in visited ==> g[x] <= pass
        decreases VisitsLeft(g, expectations)
      {
        var exp := expectations[|expectations| - 1];
        ghost var stack := expectations;
        expectations := expectations[..|expectations| - 1];
        ghost var popped := expectations;
        TopOfStack(g, pass, this, visited, stack);
        var rest := exp.immediatePrerequisites;
        while rest != {}
          invariant Pushed(g, pass, popped, expectations, exp, rest)
          invariant g[exp] - rest <= pass
          decreases rest
        {
          var next :| next in rest;
          if !next.IsSatisfied() {
            ExploredIsReached(g, pass, this, visited, stack, exp, next);
            return false;
          }
          PushNext(g, pass, popped, expectations, exp, rest, next);
          rest := rest - {next};
          expectations := expectations + [next];
        }
        ExploreStep(g, pass, this, visited, popped, expectations, exp);
        visited := visited + {exp};
      }
      ExploredAllSatisfied(g, pass, this, visited);
      return true;
    }

    /** Adds the unsatisfied expectations that walks over satisfied but uncalled
        prerequisites run into. */
    method FindUnsatisfiedPrerequisites(result: set<Expectation>, ghost all: set<Expectation>)
      returns (result': set<Expectation>)
      requires this in all && IsGraph(Graph(all)) && Acyclic(Graph(all))
      ensures result' == result + Frontier(Graph(all), Satisfied(all), SatisfiedUncalled(all), this)
    {
      ghost var g, good, pass := Graph(all), Satisfied(all), SatisfiedUncalled(all);
      ghost var visited: set<Expectation> := {};
      result' := result;
      var expectations := [this];
      assert Exploring(g, pass, this, visited, expectations) && Found(g, good, visited, result, result');
      hide Exploring, Found, Pushed;
      while expectations != []
        invariant Exploring(g, pass, this, visited, expectations)
        invariant Found(g, good, visited, result, result')
        decreases VisitsLeft(g, expectations)
      {
        var exp := expectations[|expectations| - 1];
        ghost var stack := expectations;
        ghost var before := result';
        expectations := expectations[..|expectations| - 1];
        ghost var popped := expectations;
        TopOfStack(g, pass, this, visited, stack);
        var rest := exp.immediatePrerequisites;
        while rest != {}
          invariant rest <= g[exp] && Pushed(g, pass, popped, expectations, exp, rest)
          invariant result' == before + (g[exp] - rest - good)
          decreases rest
        {
          var next :| next in rest;
          assert next in all && g[exp] - (rest - {next}) - good == (g[exp] - rest - good) + ({next} - good);
          if next.IsSatisfied() {
            if next.callCount == 0 {
              PushNext(g, pass, popped, expectations, exp, rest, next);
              expectations := expectations + [next];
            } else {
              SkipNext(g, pass, popped, expectations, exp, rest, next);
            }
          } else {
            SkipNext(g, pass, popped, expectations, exp, rest, next);
            result' := result' + {next};
          }
          rest := rest - {next};
        }
        ExploreStep(g, pass, this, visited, popped, expectations, exp);
        FoundStep(g, good, visited, result, before, exp, result');
        visited := visited + {exp};
      }
      ExploredAll(g, pass, this, visited);
      FoundAll(g, good, pass, this, visited, result, result');
    }

    /** Adds one prerequisite. Cycles come about exactly if that one already leads here; from
        a newly built expectation they cannot. */
    method AddPrerequisite(l: Expectation, ghost all: set<Expectation>)
      requires this in all && l in all && IsGraph(Graph(all))
      modifies this`immediatePrerequisites
      ensures IsGraph(Graph(all)) && Graph(all) == old(Graph(all))[this := old(Graph(all))[this] + {l}]
      ensures Acyclic(Graph(all)) <==> old(Acyclic(Graph(all))) && !Reaches<Expectation>(old(Graph(all)), l, this)
      ensures old(Sound(all) && NewlyBuilt(this, all)) && l != this ==> Sound(all) && NewlyBuilt(this, all)
    {
      ghost var g, safe := Graph(all), Sound(all) && NewlyBuilt(this, all) && l != this;
      immediatePrerequisites := immediatePrerequisites + {l};
      assert Graph(all) == g[this := g[this] + {l}];
      NewEdgeKeepsAcyclic<Expectation>(g, this, l);
      hide Acyclic, Reaches;
      if safe {
        EdgeFromNew(g, this, l);
      }
    }

    /** The clause that adds a set of prerequisites. */
    method After(s: set<Expectation>, ghost all: set<Expectation>)
      requires this in all && s <= all && IsGraph(Graph(all))
      modifies this`immediatePrerequisites
      ensures IsGraph(Graph(all)) && Graph(all) == old(Graph(all))[this := old(Graph(all))[this] + s]
      ensures Acyclic(Graph(all)) <==>
              old(Acyclic(Graph(all))) && forall l: Expectation :: l in s ==>
                !Reaches<Expectation>(old(Graph(all)), l, this)
      ensures old(Sound(all) && NewlyBuilt(this, all)) && this !in s ==> Sound(all) && NewlyBuilt(this, all)
    {
      ghost var g: PrerequisiteGraph := Graph(all);
      ghost var safe := Sound(all) && NewlyBuilt(this, all) && this !in s;
      MoreEdges(g, this, s - s, {});
      hide Acyclic, IsGraph, Reaches, Sound, NewlyBuilt;
      var rest := s;
      while rest != {}
        invariant rest <= s && IsGraph(Graph(all)) && Graph(all) == g[this := g[this] + (s - rest)]
        invariant Acyclic<Expectation>(Graph(all)) <==>
                  Acyclic<Expectation>(g) &&
                  forall l: Expectation :: l in s - rest ==> !Reaches<Expectation>(g, l, this)
        invariant forall l: Expectation :: l in s ==>
                  (Reaches<Expectation>(Graph(all), l, this) <==> Reaches<Expectation>(g, l, this))
        invariant safe ==> Sound(all) && NewlyBuilt(this, all)
        decreases rest
      {
        var l: Expectation :| l in rest;
        ghost var h := Graph(all);
        MoreEdges(g, this, s - rest, {l});
        AddPrerequisite(l, all);
        forall x: Expectation | x in s ensures Reaches<Expectation>(Graph(all), x, this) <==>
          Reaches<Expectation>(h, x, this) {
          NewEdgeFromTarget<Expectation>(h, this, l, x);
        }
        assert s - (rest - {l}) == (s - rest) + {l};
        rest := rest - {l};
      }
      assert s - rest == s;
    }

    /** Whether a call may be handled, given that its arguments match. */
    method ShouldHandleArguments(argumentsMatch: bool, ghost all: set<Expectation>) returns (should: bool)
      requires this in all && IsGraph(Graph(all)) && Acyclic(Graph(all))
      ensures should <==> !retired && Prerequisites(Graph(all), this) <= Satisfied(all) && argumentsMatch
    {
      should := false;
      if !retired {
        var satisfied := AllPrerequisitesAreSatisfied(all);
        should := satisfied && argumentsMatch;
      }
    }

    /** Counts a call. An excessive call has no other effect; any other call retires the
        prerequisites, and this expectation too if it is to retire once saturated. */
    method GetActionForArguments(ghost all: set<Expectation>) returns (excessive: bool)
      requires this in all && Sound(all)
      requires !retired && Prerequisites(Graph(all), this) <= Satisfied(all)
      modifies this`callCount, all`retired
      ensures Sound(all)
      ensures callCount == old(callCount) + 1 && excessive == (old(callCount) >= maxCalls)
      ensures Retired(all) == old(Retired(all)) +
                (if excessive then {}
                 else
                   Prerequisites(Graph(all), this) +
                   (if retiresOnSaturation && callCount >= maxCalls then {this} else {}))
    {
      ghost var g, counts, before := Graph(all), Counts(all), Retired(all);
      NoDependentIsSettled(all, this);
      hide CallsSettled, SettledWithout;
      if IsSaturated() {
        callCount := callCount + 1;
        assert Retired(all) == before;
        SoundAfterCall(all, g, counts, before, this);
        return true;
      }
      callCount := callCount + 1;
      RetireAllPreRequisites(all);
      if retiresOnSaturation && IsSaturated() {
        forall p: Expectation | p in immediatePrerequisites ensures p in Retired(all) {
          SuccessorsOfNeighbour(g, this, p);
        }
        Retire(all);
      }
      SoundAfterCall(all, g, counts, before, this);
      return false;
    }
  }

  // ---- what every run keeps ------------------------------------------------------------------

  /** With the given call counts, those called, but not too often, depend only on satisfied
      and retired expectations, and not on e. */
  ghost predicate SettledWithout(g: PrerequisiteGraph, counts: map<Expectation, nat>, retired: set<Expectation>,
                        e: Expectation) {
    && g.Keys == counts.Keys
    && forall x: Expectation :: x in g && 0 < counts[x] <= x.maxCalls ==>
         Prerequisites(g, x) <= retired && e !in Prerequisites(g, x) &&
         forall y: Expectation :: y in Prerequisites(g, x) ==> y.minCalls <= counts[y] <= y.maxCalls
  }

  /** An expectation that is not retired is no prerequisite of one that was called, but
      not too often. */
  lemma NoDependentIsSettled(all: set<Expectation>, e: Expectation)
    requires Sound(all) && e in all && !e.retired
    ensures SettledWithout(Graph(all), Counts(all), Retired(all), e)
  {
  }

  /** The invariant after a call of e, in terms of the state before. */
  lemma SoundAfterCall(all: set<Expectation>, g: PrerequisiteGraph, counts: map<Expectation, nat>,
                       before: set<Expectation>, e: Expectation)
    requires IsGraph(g) && Acyclic(g) && Graph(all) == g && RetiredClosed(all)
    requires e in all && counts.Keys == all && before <= Retired(all)
    requires forall x: Expectation :: x in all && x != e ==> x.callCount == counts[x]
    requires e.callCount == counts[e] + 1
    requires SettledWithout(g, counts, before, e)
    requires forall y: Expectation :: y in Prerequisites(g, e) ==> y.minCalls <= counts[y] <= y.maxCalls
    requires e.callCount <= e.maxCalls ==> Prerequisites(g, e) <= Retired(all)
    ensures Sound(all)
  {
    assert e !in Prerequisites(g, e);
    forall x: Expectation | x in all && 0 < x.callCount <= x.maxCalls
      ensures Prerequisites(g, x) <= Satisfied(all) && Prerequisites(g, x) <= Retired(all)
    {
      assert x != e ==> x.callCount == counts[x] && e !in Prerequisites(g, x);
      forall y: Expectation | y in Prerequisites(g, x) ensures y in Satisfied(all) {
        assert y in all && y != e;
      }
    }
  }

  /** In every state a run can reach, the search for unsatisfied prerequisites finds
      something exactly when some prerequisite is unsatisfied. */
  lemma SearchFindsCulprits(all: set<Expectation>, e: Expectation)
    requires Sound(all) && e in all
    ensures Frontier(Graph(all), Satisfied(all), SatisfiedUncalled(all), e) != {} <==>
            !(Prerequisites(Graph(all), e) <= Satisfied(all))
  {
    forall y: Expectation | y in all && y in Satisfied(all) && y !in SatisfiedUncalled(all)
      ensures Prerequisites(Graph(all), y) <= Satisfied(all)
    {
      assert 0 < y.callCount <= y.maxCalls;
    }
    FrontierDecides(Graph(all), Satisfied(all), SatisfiedUncalled(all), e);
  }

  // ---- exploring without a record of what was seen ----------------------------------------

  /** From start on, through nodes of `pass`: nodes were visited or wait on the stack, and
      what can be entered from a visited node has been visited or waits. */
  ghost predicate Exploring(g: PrerequisiteGraph, pass: set<Expectation>, start: Expectation,
                            visited: set<Expectation>, stack: seq<Expectation>)
  {
    && IsGraph(g) && start in g
    && visited <= {start} + Prerequisites(Through(g, pass), start)
    && (forall x: Expectation :: x in stack ==> x in {start} + Prerequisites(Through(g, pass), start))
    && (start in visited || start in stack)
    && (forall x: Expectation, y: Expectation :: x in visited && y in Through(g, pass)[x] ==>
          y in visited || y in stack)
  }

  /** While the prerequisites of exp are looked at: those done with, if they can be entered,
      have been pushed. */
  ghost predicate Pushed(g: PrerequisiteGraph, pass: set<Expectation>, popped: seq<Expectation>,
                         stack: seq<Expectation>, exp: Expectation, rest: set<Expectation>) {
    && popped <= stack && exp in g && rest <= g[exp]
    && (forall k :: |popped| <= k < |stack| ==> stack[k] in (g[exp] - rest) * pass)
    && (forall x: Expectation :: x in (g[exp] - rest) * pass ==> x in stack)
    && WithinBudget(g, stack, popped, exp, rest)
  }

  lemma TopOfStack(g: PrerequisiteGraph, pass: set<Expectation>, start: Expectation,
                   visited: set<Expectation>, stack: seq<Expectation>)
    requires Exploring(g, pass, start, visited, stack) && stack != []
    ensures var popped, exp := stack[..|stack| - 1], stack[|stack| - 1];
            && stack == popped + [exp] && exp in g
            && Pushed(g, pass, popped, popped, exp, g[exp])
  {
    var popped, exp := stack[..|stack| - 1], stack[|stack| - 1];
    assert stack == popped + [exp] && exp in stack;
    assert forall x: Expectation :: x in popped ==> x in stack;
  }

  lemma PushNext(g: PrerequisiteGraph, pass: set<Expectation>, popped: seq<Expectation>,
                 stack: seq<Expectation>, exp: Expectation, rest: set<Expectation>, next: Expectation)
    requires IsGraph(g) && Acyclic(g) && Pushed(g, pass, popped, stack, exp, rest)
    requires next in rest && next in pass
    ensures Pushed(g, pass, popped, stack + [next], exp, rest - {next})
  {
    PushWithinBudget(g, stack, popped, exp, rest, next);
  }

  lemma SkipNext(g: PrerequisiteGraph, pass: set<Expectation>, popped: seq<Expectation>,
                 stack: seq<Expectation>, exp: Expectation, rest: set<Expectation>, next: Expectation)
    requires IsGraph(g) && Acyclic(g) && Pushed(g, pass, popped, stack, exp, rest)
    requires next in rest && next !in pass
    ensures Pushed(g, pass, popped, stack, exp, rest - {next})
  {
    assert |rest| == |rest - {next}| + 1;
  }

  /** The result holds what is not good next to the nodes visited. */
  ghost predicate Found(g: PrerequisiteGraph, good: set<Expectation>, visited: set<Expectation>,
                        result: set<Expectation>, result': set<Expectation>)
  {
    && visited <= g.Keys && result <= result'
    && (forall y: Expectation :: y in result' && y !in result ==> y !in good && IsNextTo(g, visited, y))
    && (forall x: Expectation, y: Expectation :: x in visited && y in g[x] && y !in good ==> y in result')
  }

  lemma FoundStep(g: PrerequisiteGraph, good: set<Expectation>, visited: set<Expectation>,
                  result: set<Expectation>, before: set<Expectation>, exp: Expectation, result': set<Expectation>)
    requires Found(g, good, visited, result, before) && exp in g
    requires result' == before + (g[exp] - good)
    ensures Found(g, good, visited + {exp}, result, result')
  {
    forall y: Expectation | y in result' && y !in result ensures y !in good && IsNextTo(g, visited + {exp}, y) {
      if y in before {
        WiderNextTo(g, visited, visited + {exp}, y);
      } else {
        assert exp in visited + {exp} && y in g[exp];
      }
    }
  }

  lemma WiderNextTo(g: PrerequisiteGraph, s: set<Expectation>, t: set<Expectation>, y: Expectation)
    requires s <= t <= g.Keys && IsNextTo(g, s, y)
    ensures IsNextTo(g, t, y)
  {
  }

  lemma FoundAll(g: PrerequisiteGraph, good: set<Expectation>, pass: set<Expectation>, start: Expectation,
                 visited: set<Expectation>, result: set<Expectation>, result': set<Expectation>)
    requires IsGraph(g) && start in g && visited == {start} + Prerequisites(Through(g, pass), start)
    requires Found(g, good, visited, result, result')
    ensures result' == result + Frontier(g, good, pass, start)
  {
  }

  lemma SuccessorsThrough(g: PrerequisiteGraph, pass: set<Expectation>, x: Expectation)
    requires x in g && IsGraph(g)
    ensures IsGraph(Through(g, pass)) && Prerequisites(Through(g, pass), x) <= Prerequisites(g, x)
  {
    SuccessorsInLargerGraph(Through(g, pass), g, x);
  }

  /** A prerequisite of a node on the stack is one of start. */
  lemma ExploredIsReached(g: PrerequisiteGraph, pass: set<Expectation>, start: Expectation,
                          visited: set<Expectation>, stack: seq<Expectation>, exp: Expectation, next: Expectation)
    requires Exploring(g, pass, start, visited, stack) && exp in stack && next in g[exp]
    ensures next in Prerequisites(g, start)
  {
    SuccessorsThrough(g, pass, start);
    PrerequisiteOfSeen(g, start, exp, next);
  }

  lemma ExploreStep(g: PrerequisiteGraph, pass: set<Expectation>, start: Expectation,
                    visited: set<Expectation>, popped: seq<Expectation>, stack: seq<Expectation>, exp: Expectation)
    requires Exploring(g, pass, start, visited, popped + [exp])
    requires Acyclic(g) && Pushed(g, pass, popped, stack, exp, {})
    ensures Exploring(g, pass, start, visited + {exp}, stack)
    ensures VisitsLeft(g, stack) < VisitsLeft(g, popped + [exp])
  {
    var h := Through(g, pass);
    SuccessorsThrough(g, pass, start);
    BudgetIsLess(g, stack, popped, exp);
    assert exp in popped + [exp];
    forall x: Expectation | x in stack ensures x in {start} + Prerequisites(h, start) {
      var k :| 0 <= k < |stack| && stack[k] == x;
      if k < |popped| {
        assert x == popped[k] && x in popped + [exp];
      } else {
        PrerequisiteOfSeen(h, start, exp, x);
      }
    }
    forall x: Expectation | x in popped + [exp] ensures x in visited + {exp} || x in stack {
    }
  }

  /** With an empty stack, everything that can be entered has been visited. */
  lemma ExploredAll(g: PrerequisiteGraph, pass: set<Expectation>, start: Expectation, visited: set<Expectation>)
    requires Exploring(g, pass, start, visited, [])
    ensures visited == {start} + Prerequisites(Through(g, pass), start)
  {
    ClosedSetHoldsSuccessors(Through(g, pass), visited, start);
  }

  lemma ExploredAllSatisfied(g: PrerequisiteGraph, pass: set<Expectation>, start: Expectation,
                        visited: set<Expectation>)
    requires Exploring(g, pass, start, visited, [])
    requires forall x: Expectation :: x in visited ==> g[x] <= pass
    ensures Prerequisites(g, start) <= pass
  {
    var h := Through(g, pass);
    assert forall x: Expectation :: x in visited ==> g[x] == h[x];
    ClosedSetHoldsPrerequisites(g, visited * pass, start);
  }

  // ---- how many visits are left ---------------------------------------------------------

  ghost function Power(b: nat, n: nat): (p: nat)
    ensures b > 0 ==> p > 0
  {
    if n == 0 then 1 else Times(b, Power(b, n - 1))
  }

  ghost function Times(a: nat, b: nat): (p: nat)
    ensures a > 0 && b > 0 ==> p > 0
  {
    if a == 0 then 0 else b + Times(a - 1, b)
  }

  lemma {:induction false} TimesGrows(a: nat, b: nat, c: nat)
    requires a <= b
    ensures Times(a, c) <= Times(b, c)
    ensures a < b && c > 0 ==> Times(a, c) < Times(b, c)
  {
    if a < b {
      TimesGrows(a, b - 1, c);
    }
  }

  lemma {:induction false} PowerGrows(b: nat, m: nat, n: nat)
    requires b > 0 && m <= n
    ensures Power(b, m) <= Power(b, n)
  {
    if m < n {
      PowerGrows(b, m, n - 1);
      TimesGrows(1, b, Power(b, n - 1));
      assert Times(1, Power(b, n - 1)) == Power(b, n - 1);
    }
  }

  /** A bound on the visits that a node causes, itself included: a node is visited once
      for every path to it. */
  ghost function Visits(g: PrerequisiteGraph, x: Expectation): (v: nat)
    requires x in g
    ensures v > 0
  {
    Power(|g| + 1, Height(g, x))
  }

  ghost function VisitsLeft(g: PrerequisiteGraph, stack: seq<Expectation>): nat
    requires forall x: Expectation :: x in stack ==> x in g
  {
    if stack == [] then 0 else VisitsLeft(g, stack[..|stack| - 1]) + Visits(g, stack[|stack| - 1])
  }

  /** A bound on the visits that any one prerequisite of x causes. */
  ghost function VisitsBelow(g: PrerequisiteGraph, x: Expectation): nat
    requires x in g
  {
    if Height(g, x) == 0 then 0 else Power(|g| + 1, Height(g, x) - 1)
  }

  /** While the prerequisites of exp, which was on top of the stack, are being pushed. */
  ghost predicate WithinBudget(g: PrerequisiteGraph, stack: seq<Expectation>, popped: seq<Expectation>,
                               exp: Expectation, rest: set<Expectation>) {
    && exp in g && (forall x: Expectation :: x in stack ==> x in g) && (forall x: Expectation :: x in popped ==> x in g)
    && VisitsLeft(g, stack) + Times(|rest|, VisitsBelow(g, exp)) <=
       VisitsLeft(g, popped) + Times(|g[exp]|, VisitsBelow(g, exp))
  }

  lemma PushWithinBudget(g: PrerequisiteGraph, stack: seq<Expectation>, popped: seq<Expectation>,
                         exp: Expectation, rest: set<Expectation>, next: Expectation)
    requires IsGraph(g) && Acyclic(g) && WithinBudget(g, stack, popped, exp, rest)
    requires next in rest && rest <= g[exp]
    ensures WithinBudget(g, stack + [next], popped, exp, rest - {next})
  {
    HeightFalls(g, exp, next);
    PowerGrows(|g| + 1, Height(g, next), Height(g, exp) - 1);
    assert |rest| == |rest - {next}| + 1;
    assert (stack + [next])[..|stack|] == stack;
  }

  lemma BudgetIsLess(g: PrerequisiteGraph, stack: seq<Expectation>, popped: seq<Expectation>, exp: Expectation)
    requires IsGraph(g) && Acyclic(g) && WithinBudget(g, stack, popped, exp, {})
    ensures VisitsLeft(g, stack) < VisitsLeft(g, popped + [exp])
  {
    assert (popped + [exp])[..|popped|] == popped;
    SubsetBound(g[exp], g.Keys);
    if Height(g, exp) == 0 {
      if next :| next in g[exp] {
        HeightFalls(g, exp, next);
      }
    } else {
      TimesGrows(|g[exp]|, |g| + 1, VisitsBelow(g, exp));
    }
  }

  // ---- retiring ---------------------------------------------------------------------------

  /** On the way from start: what was retired are prerequisites of start, and so is what
      waits on the stack; the prerequisites of all that was retired are retired too, unless
      it waits or is `open`. */
  ghost predicate Retiring(g: PrerequisiteGraph, start: Expectation, before: set<Expectation>,
                           retired: set<Expectation>, stack: seq<Expectation>, open: set<Expectation>) {
    && IsGraph(g) && start in g && before <= retired <= g.Keys
    && retired <= before + Prerequisites(g, start)
    && (forall x: Expectation :: x in stack ==> x == start || x in Prerequisites(g, start))
    && (forall x: Expectation :: x in open ==> x == start || x in Prerequisites(g, start))
    && (forall x: Expectation :: x in before ==> g[x] <= before)
    && (forall x: Expectation :: x in retired - before + {start} && x !in stack && x !in open ==> g[x] <= retired)
  }

  lemma PopToRetire(g: PrerequisiteGraph, start: Expectation, before: set<Expectation>, retired: set<Expectation>,
                    stack: seq<Expectation>)
    requires Retiring(g, start, before, retired, stack, {}) && stack != []
    ensures var n := |stack| - 1;
            stack[n] in g && Retiring(g, start, before, retired, stack[..n], {stack[n]})
  {
    var n := |stack| - 1;
    assert forall x: Expectation :: x in stack ==> x in stack[..n] || x == stack[n];
  }

  lemma PushToRetire(g: PrerequisiteGraph, start: Expectation, before: set<Expectation>, retired: set<Expectation>,
                     stack: seq<Expectation>, exp: Expectation, next: Expectation)
    requires Retiring(g, start, before, retired, stack, {exp}) && exp in g && next in g[exp]
    ensures next in g && Retiring(g, start, before, retired + {next}, stack + [next], {exp})
  {
    PrerequisiteOfSeen(g, start, exp, next);
  }

  lemma RetiredBelow(g: PrerequisiteGraph, start: Expectation, before: set<Expectation>, retired: set<Expectation>,
                     stack: seq<Expectation>, exp: Expectation)
    requires Retiring(g, start, before, retired, stack, {exp}) && exp in g && g[exp] <= retired
    ensures Retiring(g, start, before, retired, stack, {})
  {
  }

  lemma RetiringDone(g: PrerequisiteGraph, start: Expectation, before: set<Expectation>, retired: set<Expectation>)
    requires Retiring(g, start, before, retired, [], {})
    ensures start in g && retired == before + Prerequisites(g, start)
    ensures forall x: Expectation :: x in retired ==> x in g && g[x] <= retired
  {
    ClosedSetHoldsPrerequisites(g, retired, start);
  }

  lemma RetiredAreClosed(all: set<Expectation>)
    requires forall x: Expectation :: x in Retired(all) ==> Graph(all)[x] <= Retired(all)
    ensures RetiredClosed(all)
  {
  }

  /** A set that holds the prerequisites of x and of its own members holds all that x
      depends on. */
  lemma ClosedSetHoldsPrerequisites(g: PrerequisiteGraph, s: set<Expectation>, x: Expectation)
    requires x in g && g[x] <= s
    requires forall z: Expectation :: z in s && z in g ==> g[z] <= s
    ensures Prerequisites(g, x) <= s
  {
    ClosedSetHoldsSuccessors<Expectation>(g, s, x);
  }

  lemma PrerequisiteOfSeen(g: PrerequisiteGraph, start: Expectation, x: Expectation, next: Expectation)
    requires IsGraph(g) && start in g && (x == start || x in Prerequisites(g, start)) && next in g[x]
    ensures next in Prerequisites(g, start)
  {
    SuccessorsOfNeighbour(g, x, next);
    if x != start {
      SuccessorsTransitive(g, start, x);
    }
  }

  // ---- building the graph ------------------------------------------------------------------------

  method ExpectCall(minCalls: nat, maxCalls: nat, retiresOnSaturation: bool, ghost all: set<Expectation>)
    returns (e: Expectation)
    requires Sound(all)
    ensures fresh(e) && NewlyBuilt(e, all + {e}) && Sound(all + {e})
    ensures Graph(all + {e}) == Graph(all)[e := {}]
  {
    ghost var g, retired, satisfied := Graph(all), Retired(all), Satisfied(all);
    e := new Expectation(minCalls, maxCalls, retiresOnSaturation);
    assert Graph(all + {e}) == g[e := {}] && Retired(all + {e}) == retired && satisfied <= Satisfied(all + {e});
    NewNode(g, e);
  }

  lemma MoreEdges(g: PrerequisiteGraph, e: Expectation, s: set<Expectation>, t: set<Expectation>)
    requires e in g
    ensures s == {} ==> g[e := g[e] + s] == g
    ensures var h := g[e := g[e] + s];
            h[e := h[e] + t] == g[e := g[e] + (s + t)]
  {
    assert g[e] + s + t == g[e] + (s + t);
    assert s == {} ==> g[e] + s == g[e];
  }

  /** A new edge from a newly built expectation makes no cycle and concerns no other one. */
  lemma EdgeFromNew(g: PrerequisiteGraph, e: Expectation, l: Expectation)
    requires IsGraph(g) && Acyclic(g) && e in g && l in g && l != e
    requires forall x: Expectation :: x in g ==> e !in g[x]
    ensures var g' := g[e := g[e] + {l}];
            && IsGraph(g') && Acyclic(g')
            && forall x: Expectation :: x in g && x != e ==> Prerequisites(g', x) == Prerequisites(g, x)
  {
    NoReachingIn<Expectation>(g, e, l);
    NewEdgeKeepsAcyclic<Expectation>(g, e, l);
    forall x: Expectation | x in g && x != e
      ensures Prerequisites(g[e := g[e] + {l}], x) == Prerequisites(g, x)
    {
      OtherSuccessorsUnchanged<Expectation>(g, e, l, x);
    }
  }

  class Sequence {
    var lastExpectation: Expectation?

    constructor ()
      ensures lastExpectation == null
    {
      lastExpectation := null;
    }

    /** Puts an expectation after the last one of the sequence. */
    method AddExpectation(expectation: Expectation, ghost all: set<Expectation>)
      requires expectation in all && IsGraph(Graph(all)) && (lastExpectation != null ==> lastExpectation in all)
      modifies this, expectation`immediatePrerequisites
      ensures lastExpectation == expectation
      ensures IsGraph(Graph(all)) && Graph(all) ==
              if old(lastExpectation) == null || old(lastExpectation) == expectation then old(Graph(all))
              else old(Graph(all))[expectation := old(Graph(all))[expectation] + {old(lastExpectation)}]
      ensures old(lastExpectation) != null && old(lastExpectation) != expectation ==>
                (Acyclic(Graph(all)) <==>
                 old(Acyclic(Graph(all))) && !Reaches<Expectation>(old(Graph(all)), old(lastExpectation), expectation))
      ensures old(Sound(all) && NewlyBuilt(expectation, all)) ==> Sound(all) && NewlyBuilt(expectation, all)
    {
      if lastExpectation != expectation {
        if lastExpectation != null {
          expectation.AddPrerequisite(lastExpectation, all);
        }
        lastExpectation := expectation;
      }
    }
  }
}
