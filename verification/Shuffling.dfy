/**
  The random number generator and the Fisher-Yates shuffle: what a shuffle keeps, and
  that its choices correspond one to one to the arrangements of the range.
 */
module Shuffling {

  // ---- the generator -----------------------------------------------------------------

  const MAX_RANGE: nat := 0x8000_0000

  function NextState(state: nat): (next: nat)
    ensures next < MAX_RANGE
  {
    (1103515245 * state + 12345) % 0x1_0000_0000 % MAX_RANGE
  }

  /** Runs the generator backwards. */
  function PreviousState(next: nat): (state: nat) {
    1857678181 * (next + MAX_RANGE - 12345) % MAX_RANGE
  }

  /** The number below range that the generator gives next. */
  function Draw(state: nat, range: nat): (r: nat)
    requires range > 0
    ensures r < range
  {
    NextState(state) % range
  }

  /** The draw is the new state less a multiple of the range, and the new state a linear
      function of the old one less a multiple of the largest range. */
  lemma DrawIsCongruent(state: nat, range: nat)
    requires range > 0
    ensures exists q: nat :: 1103515245 * state + 12345 == 0x8000_0000 * q + NextState(state)
    ensures exists q: nat :: NextState(state) == q * range + Draw(state, range)
  {
    var x := 1103515245 * state + 12345;
    NextStateIs(state, x / MAX_RANGE, x % MAX_RANGE);
    assert x == 0x8000_0000 * (x / MAX_RANGE) + NextState(state);
    assert NextState(state) == NextState(state) / range * range + Draw(state, range);
  }

  lemma RemainderIs(x: int, k: int, r: nat)
    requires r < MAX_RANGE && x == MAX_RANGE * k + r
    ensures x % MAX_RANGE == r
  {
  }

  lemma NextStateIs(state: nat, k: int, r: nat)
    requires r < MAX_RANGE && 1103515245 * state + 12345 == MAX_RANGE * k + r
    ensures NextState(state) == r
  {
    var x := 1103515245 * state + 12345;
    RemainderIs(x % 0x1_0000_0000, k - 2 * (x / 0x1_0000_0000), r);
  }

  /** The step loses nothing: on its range it is one-to-one and onto. */
  lemma StepIsReversible(state: nat)
    requires state < MAX_RANGE
    ensures PreviousState(NextState(state)) == state
    ensures NextState(PreviousState(state)) == state
  {
    var x := 1103515245 * state + 12345;
    var q := x / MAX_RANGE;
    NextStateIs(state, q, x % MAX_RANGE);
    RemainderIs(1857678181 * (x % MAX_RANGE + MAX_RANGE - 12345), 954594553 * state + 1857678181 * (1 - q), state);
    var y := 1857678181 * (state + MAX_RANGE - 12345);
    NextStateIs(y % MAX_RANGE, 954594553 * (state + MAX_RANGE - 12345) - 1103515245 * (y / MAX_RANGE) + 1, state);
  }

  class Random {
    var state: nat

    constructor (seed: nat)
      requires seed < 0x1_0000_0000
      ensures state == seed
    {
      state := seed;
    }

    method Generate(range: nat) returns (r: nat)
      requires 0 < range <= MAX_RANGE
      modifies this
      ensures state == NextState(old(state)) && r == Draw(old(state), range)
    {
      state := (1103515245 * state + 12345) % 0x1_0000_0000 % MAX_RANGE;
      r := state % range;
    }
  }

  // ---- the shuffle, given its choices ------------------------------------------------------

  function Swapped<T>(v: seq<T>, i: nat, j: nat): (w: seq<T>)
    requires i < |v| && j < |v|
    ensures |w| == |v|
  {
    v[i := v[j]][j := v[i]]
  }

  /** One choice for every width from the whole range down to two. */
  predicate AreChoices(choices: seq<nat>, width: nat) {
    && |choices| == (if width < 2 then 0 else width - 1)
    && forall k :: 0 <= k < |choices| ==> choices[k] < width - k
  }

  /** The range from begin, of the given width, rearranged as the choices say. */
  function Arranged<T>(v: seq<T>, begin: nat, width: nat, choices: seq<nat>): (w: seq<T>)
    requires begin + width <= |v| && AreChoices(choices, width)
    ensures |w| == |v|
    decreases width
  {
    if width < 2 then v
    else
      assert forall k :: 0 <= k < |choices[1..]| ==> choices[1..][k] == choices[k + 1];
      Arranged(Swapped(v, begin + choices[0], begin + width - 1), begin, width - 1, choices[1..])
  }

  lemma FirstChoice<T>(v: seq<T>, begin: nat, width: nat, k: nat, rest: seq<nat>)
    requires width >= 2 && begin + width <= |v| && k < width && AreChoices(rest, width - 1)
    ensures AreChoices([k] + rest, width)
    ensures Arranged(v, begin, width, [k] + rest) ==
            Arranged(Swapped(v, begin + k, begin + width - 1), begin, width - 1, rest)
  {
    assert ([k] + rest)[1..] == rest;
  }


  /** The same items, those outside the range where they were. */
  ghost predicate Rearranges<T>(v: seq<T>, w: seq<T>, begin: nat, end: nat)
    requires begin <= end <= |v|
  {
    && |w| == |v| && w[..begin] == v[..begin] && w[end..] == v[end..]
    && multiset(w[begin..end]) == multiset(v[begin..end])
  }

  lemma SwapRearranges<T>(v: seq<T>, begin: nat, end: nat, i: nat, j: nat)
    requires begin <= i <= j < end <= |v|
    ensures Rearranges(v, Swapped(v, i, j), begin, end)
  {
    var w := Swapped(v, i, j);
    assert w[..begin] == v[..begin] && w[end..] == v[end..];
    if i == j {
      assert w == v;
      return;
    }
    assert v[begin..end] == v[begin..i] + [v[i]] + v[i + 1..j] + [v[j]] + v[j + 1..end];
    assert w[begin..end] == v[begin..i] + [v[j]] + v[i + 1..j] + [v[i]] + v[j + 1..end];
  }

  /** A rearrangement of all but the last place of a range rearranges the range. */
  lemma WiderRange<T>(v: seq<T>, w: seq<T>, begin: nat, width: nat)
    requires width > 0 && begin + width <= |v| && Rearranges(v, w, begin, begin + (width - 1))
    ensures Rearranges(v, w, begin, begin + width) && w[begin + width - 1] == v[begin + width - 1]
  {
    var end := begin + width;
    assert w[end - 1] == w[end - 1..][0] == v[end - 1..][0] == v[end - 1];
    assert w[begin..end] == w[begin..end - 1] + [w[end - 1]] && v[begin..end] == v[begin..end - 1] + [v[end - 1]];
    assert w[end..] == w[end - 1..][1..] && v[end..] == v[end - 1..][1..];
  }

  /** The first choice swaps, and the others arrange what is left. */
  lemma ChooseFirst<T>(v: seq<T>, begin: nat, width: nat, choices: seq<nat>) returns (s: seq<T>, rest: seq<nat>)
    requires width >= 2 && begin + width <= |v| && AreChoices(choices, width)
    ensures |s| == |v| && Rearranges(v, s, begin, begin + width) && AreChoices(rest, width - 1)
    ensures Arranged(v, begin, width, choices) == Arranged(s, begin, width - 1, rest)
  {
    s, rest := Swapped(v, begin + choices[0], begin + width - 1), choices[1..];
    assert forall k :: 0 <= k < |rest| ==> rest[k] == choices[k + 1];
    hide Swapped, Rearranges;
    SwapRearranges(v, begin, begin + width, begin + choices[0], begin + width - 1);
  }

  /** A shuffle rearranges its range. */
  lemma {:induction false} ArrangedRearranges<T>(v: seq<T>, begin: nat, width: nat, choices: seq<nat>)
    requires begin + width <= |v| && AreChoices(choices, width)
    ensures Rearranges(v, Arranged(v, begin, width, choices), begin, begin + width)
    decreases width
  {
    var w := Arranged(v, begin, width, choices);
    assert width < 2 ==> w == v;
    hide *;
    if width < 2 {
      NothingMoved(v, begin, begin + width);
      return;
    }
    var s, rest := ChooseFirst(v, begin, width, choices);
    ArrangedRearranges(s, begin, width - 1, rest);
    WiderRange(s, w, begin, width);
    OneAfterTheOther(v, s, w, begin, begin + width);
  }

  lemma NothingMoved<T>(v: seq<T>, begin: nat, end: nat)
    requires begin <= end <= |v|
    ensures Rearranges(v, v, begin, end)
  {
  }

  lemma OneAfterTheOther<T>(v: seq<T>, s: seq<T>, w: seq<T>, begin: nat, end: nat)
    requires begin <= end <= |v| && Rearranges(v, s, begin, end) && Rearranges(s, w, begin, end)
    ensures Rearranges(v, w, begin, end)
  {
  }

  // ---- choices and arrangements ----------------------------------------------------------------

  ghost predicate DistinctIn<T>(v: seq<T>, begin: nat, end: nat)
    requires end <= |v|
  {
    forall i, j :: begin <= i < j < end ==> v[i] != v[j]
  }

  /** What the first choice takes stays in the last place of the range. */
  lemma LastPlace<T>(v: seq<T>, begin: nat, width: nat, choices: seq<nat>)
    requires width >= 2 && begin + width <= |v| && AreChoices(choices, width)
    ensures Arranged(v, begin, width, choices)[begin + width - 1] == v[begin + choices[0]]
  {
    var s := Swapped(v, begin + choices[0], begin + width - 1);
    ArrangedRearranges(s, begin, width - 1, choices[1..]);
    WiderRange(s, Arranged(v, begin, width, choices), begin, width);
  }

  /** Different choices give different arrangements of distinct items. */
  lemma {:induction false} ChoicesAreDetermined<T>(v: seq<T>, begin: nat, width: nat, choices: seq<nat>,
                        choices': seq<nat>)
    requires begin + width <= |v| && DistinctIn(v, begin, begin + width)
    requires AreChoices(choices, width) && AreChoices(choices', width)
    requires Arranged(v, begin, width, choices) == Arranged(v, begin, width, choices')
    ensures choices == choices'
    decreases width
  {
    if width >= 2 {
      LastPlace(v, begin, width, choices);
      LastPlace(v, begin, width, choices');
      var i, i' := begin + choices[0], begin + choices'[0];
      assert i == i';
      var s := Swapped(v, i, begin + width - 1);
      assert DistinctIn(s, begin, begin + width - 1);
      ChoicesAreDetermined(s, begin, width - 1, choices[1..], choices'[1..]);
      assert choices == [choices[0]] + choices[1..] && choices' == [choices'[0]] + choices'[1..];
    }
  }

  /** Every arrangement is the result of some choices. */
  lemma {:induction false} EveryArrangementOccurs<T>(v: seq<T>, w: seq<T>, begin: nat, width: nat)
    returns (choices: seq<nat>)
    requires begin + width <= |v| && Rearranges(v, w, begin, begin + width)
    ensures AreChoices(choices, width) && Arranged(v, begin, width, choices) == w
    decreases width
  {
    if width < 2 {
      NothingToArrange(v, w, begin, begin + width);
      return [];
    }
    hide Rearranges, Arranged, AreChoices, Swapped;
    var k := ChoiceForTheLast(v, w, begin, width);
    var rest := EveryArrangementOccurs(Swapped(v, begin + k, begin + width - 1), w, begin, width - 1);
    FirstChoice(v, begin, width, k, rest);
    choices := [k] + rest;
  }

  /** The choice that takes the last item of the arrangement leaves the others to be arranged. */
  lemma ChoiceForTheLast<T>(v: seq<T>, w: seq<T>, begin: nat, width: nat) returns (k: nat)
    requires width > 0 && begin + width <= |v| && Rearranges(v, w, begin, begin + width)
    ensures k < width && Rearranges(Swapped(v, begin + k, begin + width - 1), w, begin, begin + (width - 1))
  {
    hide Rearranges;
    var end := begin + width;
    k := WhereInRange(v, w, begin, end);
    var s := Swapped(v, begin + k, end - 1);
    SwapRearranges(v, begin, end, begin + k, end - 1);
    BothRearrange(v, s, w, begin, end);
    NarrowerRange(s, w, begin, end);
  }

  lemma BothRearrange<T>(v: seq<T>, s: seq<T>, w: seq<T>, begin: nat, end: nat)
    requires begin <= end <= |v| && Rearranges(v, s, begin, end) && Rearranges(v, w, begin, end)
    ensures Rearranges(s, w, begin, end)
  {
  }

  lemma NothingToArrange<T>(v: seq<T>, w: seq<T>, begin: nat, end: nat)
    requires begin <= end <= begin + 1 && end <= |v| && Rearranges(v, w, begin, end)
    ensures v == w
  {
    if end == begin + 1 {
      OneItem(v, w, begin);
    }
    assert v == v[..begin] + v[begin..end] + v[end..] && w == w[..begin] + w[begin..end] + w[end..];
  }

  lemma OneItem<T>(v: seq<T>, w: seq<T>, begin: nat)
    requires begin < |v| && Rearranges(v, w, begin, begin + 1)
    ensures v[begin..begin + 1] == w[begin..begin + 1]
  {
    assert v[begin..begin + 1] == [v[begin]] && w[begin..begin + 1] == [w[begin]];
    assert w[begin] in multiset(v[begin..begin + 1]);
  }

  lemma WhereInRange<T>(v: seq<T>, w: seq<T>, begin: nat, end: nat) returns (k: nat)
    requires begin < end <= |v| && Rearranges(v, w, begin, end)
    ensures begin + k < end && v[begin + k] == w[end - 1]
  {
    assert w[end - 1] == w[begin..end][end - begin - 1];
    assert w[end - 1] in multiset(w[begin..end]);
    assert w[end - 1] in v[begin..end];
    k :| 0 <= k < end - begin && v[begin..end][k] == w[end - 1];
  }

  lemma NarrowerRange<T>(v: seq<T>, w: seq<T>, begin: nat, end: nat)
    requires begin < end <= |v| && Rearranges(v, w, begin, end) && v[end - 1] == w[end - 1]
    ensures Rearranges(v, w, begin, end - 1)
  {
    WithoutLast(v, begin, end);
    WithoutLast(w, begin, end);
  }

  lemma WithoutLast<T>(v: seq<T>, begin: nat, end: nat)
    requires begin < end <= |v|
    ensures v[end - 1..] == [v[end - 1]] + v[end..]
    ensures multiset(v[begin..end - 1]) == multiset(v[begin..end]) - multiset{v[end - 1]}
  {
    assert v[begin..end] == v[begin..end - 1] + [v[end - 1]];
  }

  // ---- the shuffle in place ----------------------------------------------------------------------

  /** The choices the generator makes from a state on. */
  function Draws(state: nat, width: nat): (choices: seq<nat>)
    ensures AreChoices(choices, width)
    decreases width
  {
    if width < 2 then [] else [Draw(state, width)] + Draws(NextState(state), width - 1)
  }

  function StateAfter(state: nat, width: nat): nat
    decreases width
  {
    if width < 2 then state else StateAfter(NextState(state), width - 1)
  }

  /** Shuffling the rest of the range from here leads to the given result and state. */
  ghost predicate LeadsTo(v: seq<nat>, state: nat, begin: nat, width: nat, result: seq<nat>, last: nat) {
    && begin + width <= |v|
    && Arranged(v, begin, width, Draws(state, width)) == result
    && StateAfter(state, width) == last
  }

  lemma NextDraw(v: seq<nat>, state: nat, begin: nat, width: nat, result: seq<nat>, last: nat)
    requires width >= 2 && LeadsTo(v, state, begin, width, result, last)
    ensures begin + width <= |v|
    ensures LeadsTo(Swapped(v, begin + Draw(state, width), begin + width - 1), NextState(state), begin, width - 1,
            result, last)
  {
    FirstChoice(v, begin, width, Draw(state, width), Draws(NextState(state), width - 1));
  }

  lemma NoDrawLeft(before: seq<nat>, start: nat, begin: nat, end: nat, v: seq<nat>, state: nat, width: nat)
    requires begin <= end <= |before| && width < 2
    requires LeadsTo(v, state, begin, width, Arranged(before, begin, end - begin, Draws(start, end - begin)),
             StateAfter(start, end - begin))
    ensures v == Arranged(before, begin, end - begin, Draws(start, end - begin))
    ensures state == StateAfter(start, end - begin)
    ensures Rearranges(before, v, begin, end)
  {
    ArrangedRearranges(before, begin, end - begin, Draws(start, end - begin));
  }

  method Swap(v: array<nat>, i: nat, j: nat)
    requires i < v.Length && j < v.Length
    modifies v
    ensures v[..] == Swapped(old(v[..]), i, j)
  {
    v[i], v[j] := v[j], v[i];
  }

  method ShuffleRange(random: Random, begin: nat, end: nat, v: array<nat>)
    requires begin <= end <= v.Length <= MAX_RANGE
    modifies random, v
    ensures v[..] == Arranged(old(v[..]), begin, end - begin, Draws(old(random.state), end - begin))
    ensures random.state == StateAfter(old(random.state), end - begin)
    ensures Rearranges(old(v[..]), v[..], begin, end)
  {
    ghost var before, start := v[..], random.state;
    ghost var result, last := Arranged(before, begin, end - begin, Draws(start, end - begin)),
      StateAfter(start, end - begin);
    assert LeadsTo(before, start, begin, end - begin, result, last);
    hide *;
    var rangeWidth := end - begin;
    while rangeWidth >= 2
      invariant 0 <= rangeWidth <= end - begin
      invariant LeadsTo(v[..], random.state, begin, rangeWidth, result, last)
    {
      NextDraw(v[..], random.state, begin, rangeWidth, result, last);
      var lastInRange := begin + rangeWidth - 1;
      var selected := random.Generate(rangeWidth);
      selected := begin + selected;
      Swap(v, selected, lastInRange);
      rangeWidth := rangeWidth - 1;
    }
    NoDrawLeft(before, start, begin, end, v[..], random.state, rangeWidth);
  }

  method Shuffle(random: Random, v: array<nat>)
    requires v.Length <= MAX_RANGE
    modifies random, v
    ensures v[..] == Arranged(old(v[..]), 0, v.Length, Draws(old(random.state), v.Length))
    ensures random.state == StateAfter(old(random.state), v.Length)
    ensures multiset(v[..]) == multiset(old(v[..]))
  {
    ghost var before := v[..];
    ShuffleRange(random, 0, v.Length, v);
    assert before[0..v.Length] == before && v[..][0..v.Length] == v[..];
  }
}
