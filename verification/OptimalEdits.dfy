/**
  CalculateOptimalEdits: the cost table, the walk back through it, and exactly
  when its entries are minimal.
 */
module OptimalEdits {
  import opened EditScripts

  // ---- the table as functions ------------------------------------------------------

  /** The branch the table takes at a cell whose ends differ. */
  function ChooseMove(add: nat, remove: nat, replace: nat): EditType {
    if add < remove && add < replace then Add
    else if remove < add && remove < replace then Remove
    else Replace
  }

  function Cost<T(==)>(left: seq<T>, right: seq<T>): nat
    decreases |left| + |right|
  {
    if right == [] then |left| * STEP
    else if left == [] then |right| * STEP
    else if Last(left) == Last(right) then Cost(Init(left), Init(right))
    else
      var add, remove, replace := Cost(left, Init(right)), Cost(Init(left), right), Cost(Init(left), Init(right));
      match ChooseMove(add, remove, replace)
      case Add => add + STEP
      case Remove => remove + STEP
      case _ => replace + REPLACE
  }

  function BestMove<T(==)>(left: seq<T>, right: seq<T>): EditType {
    if right == [] then Remove
    else if left == [] then Add
    else if Last(left) == Last(right) then Match
    else ChooseMove(Cost(left, Init(right)), Cost(Init(left), right), Cost(Init(left), Init(right)))
  }

  /** The walk back from a cell, read forwards. */
  function BestPath<T(==)>(left: seq<T>, right: seq<T>): seq<EditType>
    decreases |left| + |right|
  {
    if left == [] && right == [] then []
    else
      var m := BestMove(left, right);
      BestPath(DropBack(left, LeftStep(m)), DropBack(right, RightStep(m))) + [m]
  }

  /** The walk back is a script from left to right that costs what the table says. */
  lemma {:induction false} BestPathTransforms<T>(left: seq<T>, right: seq<T>)
    ensures Transforms(BestPath(left, right), left, right)
    ensures ScriptCost(BestPath(left, right)) == Cost(left, right)
    decreases |left| + |right|
  {
    if left != [] || right != [] {
      var m := BestMove(left, right);
      var l, r := DropBack(left, LeftStep(m)), DropBack(right, RightStep(m));
      BestPathTransforms(l, r);
      AppendMove(BestPath(l, r), m, left, right);
    }
  }

  // ---- minimality ---------------------------------------------------------------------

  /** The table falls into its replace branch although adding or removing would
      not cost more. */
  predicate Misjudged<T(==)>(left: seq<T>, right: seq<T>) {
    && left != [] && right != [] && Last(left) != Last(right)
    && BestMove(left, right) == Replace
    && (Cost(left, Init(right)) <= Cost(Init(left), Init(right)) ||
        Cost(Init(left), right) <= Cost(Init(left), Init(right)))
  }

  ghost predicate NoneMisjudged<T>(left: seq<T>, right: seq<T>) {
    forall i, j :: 0 <= i <= |left| && 0 <= j <= |right| ==> !Misjudged(left[..i], right[..j])
  }

  lemma CostAtLeast<T(!new)>(left: seq<T>, right: seq<T>)
    ensures Cost(left, right) >= Least(left, right)
  {
    BestPathTransforms(left, right);
    LeastBounds(BestPath(left, right), left, right);
  }

  /** When its neighbours are minimal, a cell is minimal exactly if it is not misjudged. */
  lemma CellIsLeast<T>(left: seq<T>, right: seq<T>)
    requires left != [] && right != []
    requires Cost(left, Init(right)) == Least(left, Init(right))
    requires Cost(Init(left), right) == Least(Init(left), right)
    requires Cost(Init(left), Init(right)) == Least(Init(left), Init(right))
    ensures Cost(left, right) == Least(left, right) <==> !Misjudged(left, right)
  {
    if Last(left) == Last(right) {
      EagerMatchIsLeast(left, right);
    }
  }

  lemma {:induction false} EntryIsLeast<T>(left: seq<T>, right: seq<T>)
    requires NoneMisjudged(left, right)
    ensures Cost(left, right) == Least(left, right)
    decreases |left| + |right|
  {
    assert left[..|left|] == left && right[..|right|] == right;
    if left != [] && right != [] {
      PrefixesNotMisjudged(left, right, |left|, |right| - 1);
      PrefixesNotMisjudged(left, right, |left| - 1, |right|);
      PrefixesNotMisjudged(left, right, |left| - 1, |right| - 1);
      EntryIsLeast(left, Init(right));
      EntryIsLeast(Init(left), right);
      EntryIsLeast(Init(left), Init(right));
      CellIsLeast(left, right);
    }
  }

  lemma PrefixesNotMisjudged<T>(left: seq<T>, right: seq<T>, m: nat, n: nat)
    requires NoneMisjudged(left, right) && m <= |left| && n <= |right|
    ensures NoneMisjudged(left[..m], right[..n])
  {
    forall i, j | 0 <= i <= m && 0 <= j <= n ensures !Misjudged(left[..m][..i], right[..n][..j]) {
      assert left[..m][..i] == left[..i] && right[..n][..j] == right[..j];
    }
  }

  ghost predicate EveryEntryMinimal<T(!new)>(left: seq<T>, right: seq<T>) {
    forall i, j :: 0 <= i <= |left| && 0 <= j <= |right| ==>
              IsMinimumCost(left[..i], right[..j], Cost(left[..i], right[..j]))
  }

  lemma MinimalWithoutMisjudgement<T(!new)>(left: seq<T>, right: seq<T>)
    requires NoneMisjudged(left, right)
    ensures EveryEntryMinimal(left, right)
  {
    forall i, j | 0 <= i <= |left| && 0 <= j <= |right|
      ensures IsMinimumCost(left[..i], right[..j], Cost(left[..i], right[..j]))
    {
      PrefixesNotMisjudged(left, right, i, j);
      EntryIsLeast(left[..i], right[..j]);
      LeastIsMinimum(left[..i], right[..j], Cost(left[..i], right[..j]));
    }
  }

  lemma MinimalMeansNotMisjudged<T(!new)>(left: seq<T>, right: seq<T>, i: nat, j: nat)
    requires EveryEntryMinimal(left, right) && i <= |left| && j <= |right|
    ensures !Misjudged(left[..i], right[..j])
  {
    hide *;
    if i == 0 || j == 0 {
      BorderIsNotMisjudged(left[..i], right[..j]);
    } else {
      EntryGivesLeast(left, right, i, j);
      EntryGivesLeast(left, right, i, j - 1);
      EntryGivesLeast(left, right, i - 1, j);
      EntryGivesLeast(left, right, i - 1, j - 1);
      InitOfPrefix(left, i);
      InitOfPrefix(right, j);
      CellIsLeast(left[..i], right[..j]);
    }
  }

  lemma BorderIsNotMisjudged<T>(left: seq<T>, right: seq<T>)
    requires |left| == 0 || |right| == 0
    ensures !Misjudged(left, right)
  {
  }

  lemma InitOfPrefix<T>(s: seq<T>, i: nat)
    requires 0 < i <= |s|
    ensures Init(s[..i]) == s[..i - 1]
  {
  }

  /** Every entry of the table is the minimum cost over all scripts for its
      prefixes exactly when no cell is misjudged. */
  lemma TableMinimality<T(!new)>(left: seq<T>, right: seq<T>)
    ensures EveryEntryMinimal(left, right) <==> NoneMisjudged(left, right)
  {
    if NoneMisjudged(left, right) {
      MinimalWithoutMisjudgement(left, right);
    }
    if EveryEntryMinimal(left, right) {
      forall i, j | 0 <= i <= |left| && 0 <= j <= |right| ensures !Misjudged(left[..i], right[..j]) {
        MinimalMeansNotMisjudged(left, right, i, j);
      }
    }
  }

  lemma EntryGivesLeast<T(!new)>(left: seq<T>, right: seq<T>, i: nat, j: nat)
    requires EveryEntryMinimal(left, right) && i <= |left| && j <= |right|
    ensures Cost(left[..i], right[..j]) == Least(left[..i], right[..j])
  {
    LeastIsMinimum(left[..i], right[..j], Cost(left[..i], right[..j]));
  }

  /** So the script returned is a cheapest one whenever no cell is misjudged. */
  lemma BestPathIsMinimal<T(!new)>(left: seq<T>, right: seq<T>)
    requires NoneMisjudged(left, right)
    ensures Transforms(BestPath(left, right), left, right)
    ensures IsMinimumCost(left, right, ScriptCost(BestPath(left, right)))
  {
    BestPathTransforms(left, right);
    EntryIsLeast(left, right);
    LeastIsMinimum(left, right, Cost(left, right));
  }

  /** The misjudged family is not empty: for 1 2 1 and 2 1 2 the table settles for
      three replacements although removing and adding one item suffices. */
  lemma MisjudgedExample()
    ensures Misjudged([1, 2], [2, 1])
    ensures BestPath([1, 2, 1], [2, 1, 2]) == [Replace, Replace, Replace]
    ensures Transforms([Remove, Match, Match, Add], [1, 2, 1], [2, 1, 2])
    ensures ScriptCost([Remove, Match, Match, Add]) < Cost([1, 2, 1], [2, 1, 2])
  {
    assert Init([1, 2, 1]) == [1, 2] && Init([2, 1, 2]) == [2, 1];
    assert Init([1, 2]) == [1] && Init([2, 1]) == [2];
    assert Cost([1], [2]) == REPLACE && Cost([1, 2], [2]) == Cost([1], [2, 1]) == STEP;
    assert Cost([1, 2], [2, 1]) == 2 * REPLACE;
    assert Cost([1, 2, 1], [2, 1]) == Cost([1, 2], [2, 1, 2]) == STEP;
    assert BestPath([1], [2]) == [Replace];
    assert BestPath([1, 2], [2, 1]) == [Replace, Replace];
  }

  // ---- which cells are misjudged ----------------------------------------------------------

  lemma CostOfCell<T>(left: seq<T>, right: seq<T>)
    requires left != [] || right != []
    ensures var m := BestMove(left, right);
            && LeftStep(m) <= |left| && RightStep(m) <= |right| && EndsWith(m, left, right)
            && Cost(left, right) == Cost(DropBack(left, LeftStep(m)), DropBack(right, RightStep(m))) + MoveCost(m)
  {
  }

  /** The cost of a cell counts steps and replacements; the parity of the steps
      is that of the total length. */
  lemma {:induction false} CostShape<T>(left: seq<T>, right: seq<T>) returns (steps: nat, replacements: nat)
    ensures Cost(left, right) == steps * STEP + replacements * REPLACE
    ensures steps % 2 == (|left| + |right|) % 2
    ensures replacements <= |left| && replacements <= |right|
    decreases |left| + |right|
  {
    if right == [] {
      return |left|, 0;
    }
    if left == [] {
      return |right|, 0;
    }
    var m := BestMove(left, right);
    CostOfCell(left, right);
    var left', right' := DropBack(left, LeftStep(m)), DropBack(right, RightStep(m));
    assert |left'| + LeftStep(m) == |left| && |right'| + RightStep(m) == |right|;
    hide *;
    var s, p := CostShape(left', right');
    steps, replacements := AddMove(m, s, p, |left'|, |right'|);
  }

  /** What a move adds to a cost, and that it adds as much to the parity of the lengths. */
  lemma AddMove(m: EditType, s: nat, p: nat, l: nat, r: nat) returns (steps: nat, replacements: nat)
    requires s % 2 == (l + r) % 2 && p <= l && p <= r
    ensures steps * STEP + replacements * REPLACE == s * STEP + p * REPLACE + MoveCost(m)
    ensures steps % 2 == (l + LeftStep(m) + (r + RightStep(m))) % 2
    ensures replacements <= l + LeftStep(m) && replacements <= r + RightStep(m)
  {
    match m
    case Add => return s + 1, p;
    case Remove => return s + 1, p;
    case Replace => return s, p + 1;
    case Match => return s, p;
  }

  /** Cells of different parity never cost the same, as long as the shorter
      sequence has fewer items than a step has units. */
  lemma NeighboursDiffer<T>(l1: seq<T>, r1: seq<T>, l2: seq<T>, r2: seq<T>)
    requires |l1| < STEP || |r1| < STEP
    requires |l2| < STEP || |r2| < STEP
    requires (|l1| + |r1|) % 2 != (|l2| + |r2|) % 2
    ensures Cost(l1, r1) != Cost(l2, r2)
  {
    hide Cost;
    var s1, p1 := CostShape(l1, r1);
    var s2, p2 := CostShape(l2, r2);
    if Cost(l1, r1) == Cost(l2, r2) {
      MixedRadix(s1 + p1, p1, s2 + p2, p2);
    }
  }

  lemma MixedRadix(a: nat, b: nat, c: nat, d: nat)
    requires b < STEP && d < STEP && a * STEP + b == c * STEP + d
    ensures a == c && b == d
  {
  }

  /** Exactly the cells where adding and removing tie below replacing are misjudged. */
  lemma MisjudgedMeansTie<T>(left: seq<T>, right: seq<T>)
    requires left != [] && right != [] && Last(left) != Last(right)
    requires |left| < STEP || |right| < STEP
    ensures Misjudged(left, right) <==>
            Cost(left, Init(right)) == Cost(Init(left), right) < Cost(Init(left), Init(right))
  {
    hide Cost;
    NeighboursDiffer(left, Init(right), Init(left), Init(right));
    NeighboursDiffer(Init(left), right, Init(left), Init(right));
  }

  // ---- cells of the table -------------------------------------------------------------------

  ghost predicate Entry<T>(left: seq<T>, right: seq<T>, i: int, j: int, cost: nat, move: EditType) {
    && 0 <= i <= |left| && 0 <= j <= |right|
    && cost == Cost(left[..i], right[..j]) && move == BestMove(left[..i], right[..j])
  }

  lemma EndsOfPrefixes<T>(left: seq<T>, right: seq<T>, i: nat, j: nat)
    requires i < |left| && j < |right|
    ensures Init(left[..i + 1]) == left[..i] && Init(right[..j + 1]) == right[..j]
    ensures Last(left[..i + 1]) == left[i] && Last(right[..j + 1]) == right[j]
  {
  }

  lemma BorderEntry<T>(left: seq<T>, right: seq<T>, k: nat)
    ensures k <= |left| ==> Entry(left, right, k, 0, k * STEP, Remove)
    ensures 0 < k <= |right| ==> Entry(left, right, 0, k, k * STEP, Add)
  {
    assert left[..0] == [] && right[..0] == [];
  }

  lemma BorderEntries<T>(left: seq<T>, right: seq<T>)
    ensures forall i :: 0 <= i <= |left| ==> Entry(left, right, i, 0, i * STEP, Remove)
    ensures forall j :: 1 <= j <= |right| ==> Entry(left, right, 0, j, j * STEP, Add)
  {
    forall k: nat {
      BorderEntry(left, right, k);
    }
  }

  lemma InnerEntry<T>(left: seq<T>, right: seq<T>, i: nat, j: nat, add: nat, remove: nat, replace: nat,
                      m1: EditType, m2: EditType, m3: EditType)
    requires i < |left| && j < |right|
    requires Entry(left, right, i + 1, j, add, m1) && Entry(left, right, i, j + 1, remove, m2) &&
             Entry(left, right, i, j, replace, m3)
    ensures left[i] == right[j] ==> Entry(left, right, i + 1, j + 1, replace, Match)
    ensures left[i] != right[j] ==>
              var move := ChooseMove(add, remove, replace);
              var cost := if move.Add? then add + STEP else if move.Remove? then remove + STEP else replace + REPLACE;
              Entry(left, right, i + 1, j + 1, cost, move)
  {
    EndsOfPrefixes(left, right, i, j);
  }

  // ---- the script returned ------------------------------------------------------------------

  /** The branch taken at a cell is a cheapest one by the least costs of its neighbours. */
  ghost predicate TakesCheapest<T>(left: seq<T>, right: seq<T>)
    requires left != [] && right != []
  {
    var add, remove, replace := Least(left, Init(right)), Least(Init(left), right), Least(Init(left), Init(right));
    match BestMove(left, right)
    case Match => true
    case Add => add <= remove && add + STEP <= replace + REPLACE
    case Remove => remove <= add && remove + STEP <= replace + REPLACE
    case Replace => replace < add && replace < remove
  }

  /** At every inner cell of the walk back. */
  ghost predicate WalkTakesCheapest<T>(left: seq<T>, right: seq<T>)
    decreases |left| + |right|
  {
    if left == [] || right == [] then true
    else
      var m := BestMove(left, right);
      TakesCheapest(left, right) && WalkTakesCheapest(DropBack(left, LeftStep(m)), DropBack(right, RightStep(m)))
  }

  /** Some cell of the walk back is misjudged. */
  ghost predicate WalkIsMisjudged<T>(left: seq<T>, right: seq<T>)
    decreases |left| + |right|
  {
    if left == [] || right == [] then false
    else
      var m := BestMove(left, right);
      Misjudged(left, right) || WalkIsMisjudged(DropBack(left, LeftStep(m)), DropBack(right, RightStep(m)))
  }

  /** The cell for l and r is on the walk back. */
  ghost predicate OnWalk<T>(left: seq<T>, right: seq<T>, l: seq<T>, r: seq<T>)
    decreases |left| + |right|
  {
    || (l == left && r == right)
    || ((left != [] || right != []) &&
        var m := BestMove(left, right);
        OnWalk(DropBack(left, LeftStep(m)), DropBack(right, RightStep(m)), l, r))
  }

  lemma {:induction false} NoneMisjudgedAtBorder<T>(left: seq<T>, right: seq<T>, l: seq<T>, r: seq<T>)
    requires (left == [] || right == []) && OnWalk(left, right, l, r)
    ensures !Misjudged(l, r)
    decreases |left| + |right|
  {
    if !(l == left && r == right) {
      var m := BestMove(left, right);
      NoneMisjudgedAtBorder(DropBack(left, LeftStep(m)), DropBack(right, RightStep(m)), l, r);
    }
  }

  /** The walk is misjudged exactly if one of its cells is. */
  lemma {:induction false} MisjudgedOnWalk<T(!new)>(left: seq<T>, right: seq<T>)
    ensures WalkIsMisjudged(left, right) <==> exists l, r :: OnWalk(left, right, l, r) && Misjudged(l, r)
    decreases |left| + |right|
  {
    if left == [] || right == [] {
      forall l, r | OnWalk(left, right, l, r) ensures !Misjudged(l, r) {
        NoneMisjudgedAtBorder(left, right, l, r);
      }
      return;
    }
    hide Misjudged, Cost, BestMove;
    assert OnWalk(left, right, left, right);
    var m := BestMove(left, right);
    MisjudgedOnWalk(DropBack(left, LeftStep(m)), DropBack(right, RightStep(m)));
  }

  /** A branch is a cheapest one exactly if the cell before it leaves nothing to save. */
  lemma CheapestLeavesNothing<T(!new)>(left: seq<T>, right: seq<T>)
    requires left != [] && right != []
    ensures var m := BestMove(left, right);
            TakesCheapest(left, right) <==>
            Least(left, right) == Least(DropBack(left, LeftStep(m)), DropBack(right, RightStep(m))) + MoveCost(m)
  {
    if Last(left) == Last(right) {
      EagerMatchIsLeast(left, right);
    }
  }

  lemma {:induction false} WalkCostsLeast<T(!new)>(left: seq<T>, right: seq<T>)
    ensures Cost(left, right) == Least(left, right) <==> WalkTakesCheapest(left, right)
    decreases |left| + |right|
  {
    if left != [] && right != [] {
      var m := BestMove(left, right);
      CostOfCell(left, right);
      CheapestLeavesNothing(left, right);
      LeastStep(m, left, right);
      var l, r := DropBack(left, LeftStep(m)), DropBack(right, RightStep(m));
      CostAtLeast(l, r);
      WalkCostsLeast(l, r);
    }
  }

  /** The script returned is a cheapest one exactly if every branch on its walk back is. */
  lemma ReturnedScriptIsMinimal<T(!new)>(left: seq<T>, right: seq<T>)
    ensures IsMinimumCost(left, right, ScriptCost(BestPath(left, right))) <==> WalkTakesCheapest(left, right)
  {
    BestPathTransforms(left, right);
    WalkCostsLeast(left, right);
    LeastIsMinimum(left, right, Cost(left, right));
  }

  lemma MisjudgedCellIsNotLeast<T(!new)>(left: seq<T>, right: seq<T>)
    requires Misjudged(left, right)
    ensures Cost(left, right) > Least(left, right)
  {
    CostAtLeast(left, Init(right));
    CostAtLeast(Init(left), right);
  }

  /** A misjudged cell on the walk back always spoils the script. */
  lemma {:induction false} MisjudgedWalkIsNotMinimal<T(!new)>(left: seq<T>, right: seq<T>)
    requires WalkIsMisjudged(left, right)
    ensures Cost(left, right) > Least(left, right)
    decreases |left| + |right|
  {
    if Misjudged(left, right) {
      MisjudgedCellIsNotLeast(left, right);
      return;
    }
    var m := BestMove(left, right);
    CostOfCell(left, right);
    LeastStep(m, left, right);
    MisjudgedWalkIsNotMinimal(DropBack(left, LeftStep(m)), DropBack(right, RightStep(m)));
  }

  /** No misjudged cell at all makes the script a cheapest one, and then none is on its
      walk back. */
  lemma MinimalityChain<T(!new)>(left: seq<T>, right: seq<T>)
    ensures NoneMisjudged(left, right) ==> WalkTakesCheapest(left, right)
    ensures WalkTakesCheapest(left, right) ==> !WalkIsMisjudged(left, right)
  {
    WalkCostsLeast(left, right);
    if NoneMisjudged(left, right) {
      EntryIsLeast(left, right);
    }
    if WalkIsMisjudged(left, right) {
      MisjudgedWalkIsNotMinimal(left, right);
    }
  }

  lemma ExampleCells(left: seq<int>, right: seq<int>)
    requires left == [1, 2, 1] && right == [2, 1, 1, 3]
    ensures && Entry(left, right, 3, 4, 300002, Replace) && Entry(left, right, 2, 3, 200001, Replace)
            && Entry(left, right, 1, 2, 100000, Match)
            && Entry(left, right, 3, 3, 200002, Match) && Entry(left, right, 2, 4, 300001, Replace)
            && Entry(left, right, 2, 2, 200002, Replace) && Entry(left, right, 1, 3, 200000, Match)
  {
    hide Entry;
    BorderEntry(left, right, 0);
    BorderEntry(left, right, 1);
    BorderEntry(left, right, 2);
    BorderEntry(left, right, 3);
    BorderEntry(left, right, 4);
    InnerEntry(left, right, 0, 0, 100000, 100000, 0, Remove, Add, Remove);
    InnerEntry(left, right, 0, 1, 100001, 200000, 100000, Replace, Add, Add);
    InnerEntry(left, right, 0, 2, 100000, 300000, 200000, Match, Add, Add);
    InnerEntry(left, right, 0, 3, 200000, 400000, 300000, Match, Add, Add);
    InnerEntry(left, right, 1, 0, 200000, 100001, 100000, Remove, Replace, Remove);
    InnerEntry(left, right, 1, 1, 100000, 100000, 100001, Match, Match, Replace);
    InnerEntry(left, right, 1, 2, 200002, 200000, 100000, Replace, Match, Match);
    InnerEntry(left, right, 1, 3, 200001, 300000, 200000, Replace, Add, Match);
    InnerEntry(left, right, 2, 0, 300000, 100000, 200000, Remove, Match, Remove);
    InnerEntry(left, right, 2, 1, 200000, 200002, 100000, Remove, Replace, Match);
    InnerEntry(left, right, 2, 2, 100000, 200001, 200002, Match, Replace, Replace);
    InnerEntry(left, right, 2, 3, 200002, 300001, 200001, Match, Replace, Replace);
  }

  /** A cell of the walk that steps to the diagonal is clean if the cell before it is and its
      other neighbours cost more. */
  lemma CleanCell(left: seq<int>, right: seq<int>, i: nat, j: nat)
    requires 0 < i <= |left| && 0 < j <= |right|
    requires BestMove(left[..i], right[..j]) == Match || BestMove(left[..i], right[..j]) == Replace
    requires BestMove(left[..i], right[..j]) == Replace ==>
               && Cost(left[..i], right[..j - 1]) > Cost(left[..i - 1], right[..j - 1])
               && Cost(left[..i - 1], right[..j]) > Cost(left[..i - 1], right[..j - 1])
    requires i == 1 || !WalkIsMisjudged(left[..i - 1], right[..j - 1])
    ensures !WalkIsMisjudged(left[..i], right[..j])
  {
    hide Cost;
    InitOfPrefix(left, i);
    InitOfPrefix(right, j);
  }

  lemma ShorterExampleScript()
    ensures Transforms([Remove, Match, Match, Add, Add], [1, 2, 1], [2, 1, 1, 3])
    ensures ScriptCost([Remove, Match, Match, Add, Add]) == 3 * STEP
  {
    assert Transforms([Match, Add, Add], [1], [1, 1, 3]) && ScriptCost([Match, Add, Add]) == 2 * STEP;
  }

  lemma ExampleWalk(left: seq<int>, right: seq<int>)
    requires |left| == 3 && |right| == 4
    requires Entry(left, right, 3, 4, 300002, Replace) && Entry(left, right, 2, 3, 200001, Replace)
    requires Entry(left, right, 1, 2, 100000, Match)
    requires Entry(left, right, 3, 3, 200002, Match) && Entry(left, right, 2, 4, 300001, Replace)
    requires Entry(left, right, 2, 2, 200002, Replace) && Entry(left, right, 1, 3, 200000, Match)
    ensures !WalkIsMisjudged(left, right) && Cost(left, right) == 300002
  {
    hide Cost, BestMove, WalkIsMisjudged;
    CleanCell(left, right, 1, 2);
    CleanCell(left, right, 2, 3);
    CleanCell(left, right, 3, 4);
    assert left[..3] == left && right[..4] == right;
  }

  /** The second step has no converse: for 1 2 1 and 2 1 1 3 no cell on the walk back is
      misjudged, but one off it has made the last replacement look cheap. */
  lemma CleanWalkExample(left: seq<int>, right: seq<int>)
    requires left == [1, 2, 1] && right == [2, 1, 1, 3]
    ensures !WalkIsMisjudged(left, right) && Cost(left, right) > Least(left, right)
  {
    ExampleCells(left, right);
    ShorterExampleScript();
    hide *;
    LeastBounds([Remove, Match, Match, Add, Add], left, right);
    ExampleWalk(left, right);
  }

  // ---- the program ------------------------------------------------------------------------

  /** Fills the table; every entry is the one the recursive definition gives. */
  method FillTable<T(==)>(left: seq<T>, right: seq<T>) returns (costs: array2<nat>, bestMove: array2<EditType>)
    ensures fresh(costs) && fresh(bestMove)
    ensures costs.Length0 == bestMove.Length0 == |left| + 1 && costs.Length1 == bestMove.Length1 == |right| + 1
    ensures forall i, j :: 0 <= i <= |left| && 0 <= j <= |right| ==>
            Entry(left, right, i, j, costs[i, j], bestMove[i, j])
  {
    costs := new nat[|left| + 1, |right| + 1];
    bestMove := new EditType[|left| + 1, |right| + 1];
    BorderEntries(left, right);
    hide Entry;
    for i := 0 to |left| + 1
      invariant forall k :: 0 <= k < i ==> Entry(left, right, k, 0, costs[k, 0], bestMove[k, 0])
    {
      costs[i, 0] := i * STEP;
      bestMove[i, 0] := Remove;
    }
    for j := 1 to |right| + 1
      invariant forall k :: 0 <= k <= |left| ==> Entry(left, right, k, 0, costs[k, 0], bestMove[k, 0])
      invariant forall k :: 0 <= k < j ==> Entry(left, right, 0, k, costs[0, k], bestMove[0, k])
    {
      costs[0, j] := j * STEP;
      bestMove[0, j] := Add;
    }
    for i := 0 to |left|
      invariant forall k, l :: 0 <= k <= |left| && 0 <= l <= |right| && (l == 0 || k <= i) ==>
                  Entry(left, right, k, l, costs[k, l], bestMove[k, l])
    {
      for j := 0 to |right|
        invariant forall k, l :: 0 <= k <= |left| && 0 <= l <= |right| &&
                                 (l == 0 || k <= i || (k == i + 1 && l <= j)) ==>
                    Entry(left, right, k, l, costs[k, l], bestMove[k, l])
      {
        FillCell(left, right, costs, bestMove, i, j);
      }
    }
  }

  /** Fills one cell from those above, on the left and across. */
  method FillCell<T(==)>(left: seq<T>, right: seq<T>, costs: array2<nat>, bestMove: array2<EditType>, i: nat, j: nat)
    requires costs.Length0 == bestMove.Length0 == |left| + 1 && costs.Length1 == bestMove.Length1 == |right| + 1
    requires i < |left| && j < |right|
    requires Entry(left, right, i, j, costs[i, j], bestMove[i, j])
    requires Entry(left, right, i, j + 1, costs[i, j + 1], bestMove[i, j + 1])
    requires Entry(left, right, i + 1, j, costs[i + 1, j], bestMove[i + 1, j])
    modifies costs, bestMove
    ensures Entry(left, right, i + 1, j + 1, costs[i + 1, j + 1], bestMove[i + 1, j + 1])
    ensures forall k, l :: 0 <= k <= |left| && 0 <= l <= |right| && (k != i + 1 || l != j + 1) ==>
              costs[k, l] == old(costs[k, l]) && bestMove[k, l] == old(bestMove[k, l])
  {
    hide Entry;
    InnerEntry(left, right, i, j, costs[i + 1, j], costs[i, j + 1], costs[i, j], bestMove[i + 1, j],
      bestMove[i, j + 1], bestMove[i, j]);
    if left[i] == right[j] {
      costs[i + 1, j + 1] := costs[i, j];
      bestMove[i + 1, j + 1] := Match;
    } else {
      var add, remove, replace := costs[i + 1, j], costs[i, j + 1], costs[i, j];
      if add < remove && add < replace {
        costs[i + 1, j + 1] := add + STEP;
        bestMove[i + 1, j + 1] := Add;
      } else if remove < add && remove < replace {
        costs[i + 1, j + 1] := remove + STEP;
        bestMove[i + 1, j + 1] := Remove;
      } else {
        costs[i + 1, j + 1] := replace + REPLACE;
        bestMove[i + 1, j + 1] := Replace;
      }
    }
  }

  function Reversed<T>(s: seq<T>): (r: seq<T>)
    ensures |r| == |s|
  {
    if s == [] then [] else Reversed(s[1..]) + [s[0]]
  }

  lemma {:induction false} ReversedSnoc<T>(s: seq<T>, x: T)
    ensures Reversed(s + [x]) == [x] + Reversed(s)
  {
    if s != [] {
      assert (s + [x])[1..] == s[1..] + [x];
      ReversedSnoc(s[1..], x);
    }
  }

  method Reverse<T>(s: seq<T>) returns (r: seq<T>)
    ensures r == Reversed(s)
  {
    r := [];
    for i := 0 to |s|
      invariant r == Reversed(s[..i])
    {
      assert s[..i + 1] == s[..i] + [s[i]];
      ReversedSnoc(s[..i], s[i]);
      r := [s[i]] + r;
    }
    assert s[..|s|] == s;
  }

  lemma BestPathStep<T>(left: seq<T>, right: seq<T>, i: nat, j: nat)
    requires i <= |left| && j <= |right| && (i > 0 || j > 0)
    ensures var m := BestMove(left[..i], right[..j]);
            && LeftStep(m) <= i && RightStep(m) <= j
            && BestPath(left[..i], right[..j]) == BestPath(left[..i - LeftStep(m)], right[..j - RightStep(m)]) + [m]
  {
    var m := BestMove(left[..i], right[..j]);
    assert DropBack(left[..i], LeftStep(m)) == left[..i - LeftStep(m)];
    assert DropBack(right[..j], RightStep(m)) == right[..j - RightStep(m)];
  }

  lemma MoveAcross<T>(front: seq<T>, x: T, back: seq<T>)
    ensures (front + [x]) + Reversed(back) == front + Reversed(back + [x])
  {
    ReversedSnoc(back, x);
  }

  /** Walks back from the far corner, collecting the moves in reverse. */
  method WalkBack<T(==)>(left: seq<T>, right: seq<T>, bestMove: array2<EditType>) returns (path: seq<EditType>)
    requires bestMove.Length0 == |left| + 1 && bestMove.Length1 == |right| + 1
    requires forall i, j :: 0 <= i <= |left| && 0 <= j <= |right| ==> bestMove[i, j] == BestMove(left[..i], right[..j])
    ensures Reversed(path) == BestPath(left, right)
  {
    var i: nat, j: nat := |left|, |right|;
    path := [];
    assert left[..i] == left && right[..j] == right;
    assert BestPath(left[..0], right[..0]) == [] && Reversed(path) == [];
    ghost var front := BestPath(left, right);
    hide BestPath, BestMove, Reversed;
    while i > 0 || j > 0
      invariant i <= |left| && j <= |right|
      invariant front == BestPath(left[..i], right[..j])
      invariant BestPath(left, right) == front + Reversed(path)
      decreases i + j
    {
      var move := bestMove[i, j];
      BestPathStep(left, right, i, j);
      front := BestPath(left[..i - LeftStep(move)], right[..j - RightStep(move)]);
      MoveAcross(front, move, path);
      path := path + [move];
      i := i - LeftStep(move);
      j := j - RightStep(move);
    }
  }

  /** The script is read off the table from the far corner and then reversed. */
  method CalculateOptimalEdits<T(==)>(left: seq<T>, right: seq<T>) returns (edits: seq<EditType>)
    ensures edits == BestPath(left, right)
    ensures Transforms(edits, left, right) && ScriptCost(edits) == Cost(left, right)
  {
    var costs, bestMove := FillTable(left, right);
    forall i, j | 0 <= i <= |left| && 0 <= j <= |right| ensures bestMove[i, j] == BestMove(left[..i], right[..j]) {
      assert Entry(left, right, i, j, costs[i, j], bestMove[i, j]);
    }
    var path := WalkBack(left, right, bestMove);
    edits := Reverse(path);
    BestPathTransforms(left, right);
  }

  // ---- strings by id --------------------------------------------------------------------------

  /** Gives every distinct string its own id. */
  class InternalStrings {
    var ids: map<string, nat>

    ghost predicate Valid()
      reads this
    {
      && (forall s :: s in ids ==> ids[s] < |ids|)
      && (forall s, t :: s in ids && t in ids && ids[s] == ids[t] ==> s == t)
    }

    constructor ()
      ensures Valid() && ids == map[]
    {
      ids := map[];
    }

    method GetId(str: string) returns (id: nat)
      requires Valid()
      modifies this
      ensures Valid() && str in ids && ids[str] == id
      ensures forall s :: s in old(ids) ==> s in ids && ids[s] == old(ids)[s]
    {
      if str in ids {
        return ids[str];
      }
      id := |ids|;
      ids := ids[str := id];
    }
  }

  /** Two pairs of sequences that agree on which items are equal. */
  ghost predicate SamePattern<S, T>(left: seq<S>, right: seq<S>, left': seq<T>, right': seq<T>) {
    && |left| == |left'| && |right| == |right'|
    && forall i, j :: 0 <= i < |left| && 0 <= j < |right| ==> (left[i] == right[j] <==> left'[i] == right'[j])
  }

  lemma {:induction false} CostSamePattern<S, T>(left: seq<S>, right: seq<S>, left': seq<T>, right': seq<T>)
    requires SamePattern(left, right, left', right')
    ensures Cost(left, right) == Cost(left', right')
    decreases |left| + |right|
  {
    if left != [] && right != [] {
      CostSamePattern(left, Init(right), left', Init(right'));
      CostSamePattern(Init(left), right, Init(left'), right');
      CostSamePattern(Init(left), Init(right), Init(left'), Init(right'));
    }
  }

  lemma BestMoveSamePattern<S, T>(left: seq<S>, right: seq<S>, left': seq<T>, right': seq<T>)
    requires SamePattern(left, right, left', right')
    ensures BestMove(left, right) == BestMove(left', right')
  {
    if left != [] && right != [] {
      CostSamePattern(left, Init(right), left', Init(right'));
      CostSamePattern(Init(left), right, Init(left'), right');
      CostSamePattern(Init(left), Init(right), Init(left'), Init(right'));
    }
  }

  lemma {:induction false} BestPathSamePattern<S, T>(left: seq<S>, right: seq<S>, left': seq<T>, right': seq<T>)
    requires SamePattern(left, right, left', right')
    ensures BestPath(left, right) == BestPath(left', right')
    decreases |left| + |right|
  {
    if left != [] || right != [] {
      BestMoveSamePattern(left, right, left', right');
      var m := BestMove(left, right);
      BestPathSamePattern(DropBack(left, LeftStep(m)), DropBack(right, RightStep(m)),
                          DropBack(left', LeftStep(m)), DropBack(right', RightStep(m)));
    }
  }

  /** Lines are compared by id; the script is the one for the lines themselves. */
  method CalculateOptimalLineEdits(left: seq<string>, right: seq<string>) returns (edits: seq<EditType>)
    ensures edits == BestPath(left, right)
    ensures Transforms(edits, left, right) && ScriptCost(edits) == Cost(left, right)
  {
    var intern := new InternalStrings();
    var leftIds, rightIds := [], [];
    for i := 0 to |left|
      invariant intern.Valid() && fresh(intern) && |leftIds| == i
      invariant forall k :: 0 <= k < i ==> left[k] in intern.ids && intern.ids[left[k]] == leftIds[k]
    {
      var id := intern.GetId(left[i]);
      leftIds := leftIds + [id];
    }
    for i := 0 to |right|
      invariant intern.Valid() && fresh(intern) && |rightIds| == i
      invariant forall k :: 0 <= k < |left| ==> left[k] in intern.ids && intern.ids[left[k]] == leftIds[k]
      invariant forall k :: 0 <= k < i ==> right[k] in intern.ids && intern.ids[right[k]] == rightIds[k]
    {
      var id := intern.GetId(right[i]);
      rightIds := rightIds + [id];
    }
    edits := CalculateOptimalEdits(leftIds, rightIds);
    BestPathSamePattern(left, right, leftIds, rightIds);
    BestPathTransforms(left, right);
  }
}
