/**
  Edit scripts between two sequences, what they cost, and the least cost of any
  script.
 */
module EditScripts {

  datatype EditType = Match | Add | Remove | Replace

  /** Costs are counted in units of 0.00001, so that they are exact. */
  const STEP: nat := 100000
  const REPLACE: nat := 100001

  function LeftStep(m: EditType): nat {
    if m.Add? then 0 else 1
  }

  function RightStep(m: EditType): nat {
    if m.Remove? then 0 else 1
  }

  function MoveCost(m: EditType): nat {
    match m
    case Match => 0
    case Replace => REPLACE
    case _ => STEP
  }

  function ScriptCost(script: seq<EditType>): nat {
    if script == [] then 0 else MoveCost(script[0]) + ScriptCost(script[1..])
  }

  /** The script turns left into right: it uses up both, pairs equal items on a
      match and unequal items on a replacement. */
  ghost predicate Transforms<T>(script: seq<EditType>, left: seq<T>, right: seq<T>)
    decreases |script|
  {
    if script == [] then left == [] && right == []
    else
      var m := script[0];
      && LeftStep(m) <= |left| && RightStep(m) <= |right|
      && (m.Match? ==> left[0] == right[0])
      && (m.Replace? ==> left[0] != right[0])
      && Transforms(script[1..], left[LeftStep(m)..], right[RightStep(m)..])
  }

  // ---- taking scripts apart at the back ----------------------------------------

  function Init<T>(s: seq<T>): seq<T>
    requires s != []
  {
    s[..|s| - 1]
  }

  function Last<T>(s: seq<T>): T
    requires s != []
  {
    s[|s| - 1]
  }

  function DropBack<T>(s: seq<T>, n: nat): (t: seq<T>)
    requires n <= |s|
    ensures n == 0 ==> t == s
  {
    s[..|s| - n]
  }

  /** What the last move of a script requires of the ends of both sequences. */
  ghost predicate EndsWith<T>(m: EditType, left: seq<T>, right: seq<T>) {
    && LeftStep(m) <= |left| && RightStep(m) <= |right|
    && (m.Match? ==> Last(left) == Last(right))
    && (m.Replace? ==> Last(left) != Last(right))
  }

  lemma {:induction false} AppendMove<T>(script: seq<EditType>, m: EditType, left: seq<T>, right: seq<T>)
    requires EndsWith(m, left, right)
    requires Transforms(script, DropBack(left, LeftStep(m)), DropBack(right, RightStep(m)))
    ensures Transforms(script + [m], left, right)
    ensures ScriptCost(script + [m]) == ScriptCost(script) + MoveCost(m)
    decreases |script|
  {
    if script == [] {
      assert script + [m] == [m];
      assert left[LeftStep(m)..] == [] && right[RightStep(m)..] == [];
    } else {
      var f := script[0];
      assert (script + [m])[1..] == script[1..] + [m];
      var l, r := left[LeftStep(f)..], right[RightStep(f)..];
      assert DropBack(l, LeftStep(m)) == DropBack(left, LeftStep(m))[LeftStep(f)..];
      assert DropBack(r, RightStep(m)) == DropBack(right, RightStep(m))[RightStep(f)..];
      AppendMove(script[1..], m, l, r);
    }
  }

  lemma {:induction false} DropLastMove<T>(script: seq<EditType>, left: seq<T>, right: seq<T>)
    requires script != [] && Transforms(script, left, right)
    ensures var m := Last(script);
            && EndsWith(m, left, right)
            && Transforms(Init(script), DropBack(left, LeftStep(m)), DropBack(right, RightStep(m)))
            && ScriptCost(script) == ScriptCost(Init(script)) + MoveCost(m)
    decreases |script|
  {
    var m := Last(script);
    var f := script[0];
    if |script| > 1 {
      var l, r := left[LeftStep(f)..], right[RightStep(f)..];
      DropLastMove(script[1..], l, r);
      assert Init(script)[1..] == Init(script[1..]);
      assert DropBack(l, LeftStep(m)) == DropBack(left, LeftStep(m))[LeftStep(f)..];
      assert DropBack(r, RightStep(m)) == DropBack(right, RightStep(m))[RightStep(f)..];
    }
  }

  // ---- the least cost --------------------------------------------------------------

  function Min(a: nat, b: nat): nat {
    if a < b then a else b
  }

  /** The least cost, by trying every last move. */
  function Least<T(==)>(left: seq<T>, right: seq<T>): nat
    decreases |left| + |right|
  {
    if left == [] then |right| * STEP
    else if right == [] then |left| * STEP
    else
      var diagonal := Least(Init(left), Init(right)) + (if Last(left) == Last(right) then 0 else REPLACE);
      Min(diagonal, Min(Least(left, Init(right)) + STEP, Least(Init(left), right) + STEP))
  }

  /** c is the cost of some script from left to right, and no script costs less. */
  ghost predicate IsMinimumCost<T(!new)>(left: seq<T>, right: seq<T>, c: nat) {
    && (exists script :: Transforms(script, left, right) && ScriptCost(script) == c)
    && (forall script :: Transforms(script, left, right) ==> ScriptCost(script) >= c)
  }

  lemma LeastStep<T>(m: EditType, left: seq<T>, right: seq<T>)
    requires EndsWith(m, left, right)
    ensures Least(left, right) <= Least(DropBack(left, LeftStep(m)), DropBack(right, RightStep(m))) + MoveCost(m)
  {
    if left != [] && right != [] {
      assert m.Add? || DropBack(left, LeftStep(m)) == Init(left);
      assert m.Remove? || DropBack(right, RightStep(m)) == Init(right);
    }
  }

  lemma {:induction false} LeastBounds<T>(script: seq<EditType>, left: seq<T>, right: seq<T>)
    requires Transforms(script, left, right)
    ensures ScriptCost(script) >= Least(left, right)
    decreases |script|
  {
    if script != [] {
      DropLastMove(script, left, right);
      var m := Last(script);
      LeastStep(m, left, right);
      hide Least, Transforms;
      LeastBounds(Init(script), DropBack(left, LeftStep(m)), DropBack(right, RightStep(m)));
    }
  }

  /** A script that attains the least cost. */
  lemma {:induction false} LeastAttained<T>(left: seq<T>, right: seq<T>) returns (script: seq<EditType>)
    ensures Transforms(script, left, right) && ScriptCost(script) == Least(left, right)
    decreases |left| + |right|
  {
    if left == [] && right == [] {
      script := [];
    } else {
      var m :=
        if left == [] then Add
        else if right == [] then Remove
        else if Least(left, right) == Least(left, Init(right)) + STEP then Add
        else if Least(left, right) == Least(Init(left), right) + STEP then Remove
        else if Last(left) == Last(right) then Match
        else Replace;
      var rest := LeastAttained(DropBack(left, LeftStep(m)), DropBack(right, RightStep(m)));
      AppendMove(rest, m, left, right);
      script := rest + [m];
    }
  }

  lemma LeastIsMinimum<T(!new)>(left: seq<T>, right: seq<T>, c: nat)
    ensures IsMinimumCost(left, right, c) <==> c == Least(left, right)
  {
    var best := LeastAttained(left, right);
    forall script | Transforms(script, left, right) ensures ScriptCost(script) >= Least(left, right) {
      LeastBounds(script, left, right);
    }
  }

  /** Dropping one item at the end saves at most one step, on either side. */
  lemma {:induction false} LeastIsSteady<T>(left: seq<T>, right: seq<T>)
    ensures left != [] ==> Least(Init(left), right) <= Least(left, right) + STEP
    ensures right != [] ==> Least(left, Init(right)) <= Least(left, right) + STEP
    decreases |left| + |right|
  {
    if left != [] && right != [] {
      LeastIsSteady(Init(left), right);
      LeastIsSteady(left, Init(right));
    }
  }

  /** Eagerly consuming a match at the end is optimal. */
  lemma EagerMatchIsLeast<T>(left: seq<T>, right: seq<T>)
    requires left != [] && right != [] && Last(left) == Last(right)
    ensures Least(left, right) == Least(Init(left), Init(right))
  {
    LeastIsSteady(left, Init(right));
    LeastIsSteady(Init(left), right);
  }
}
