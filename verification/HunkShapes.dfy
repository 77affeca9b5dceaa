/**
  The shape of a hunk's body: where its unchanged lines stand, how long they run,
  and that removed lines come before added ones.
 */
module HunkShapes {
  import opened EditScripts
  import opened Hunks

  /** The unchanged lines at the start. */
  function Leading(lines: seq<Line>): (n: nat)
    ensures n <= |lines|
  {
    if lines == [] || lines[0].tag != Common then 0 else 1 + Leading(lines[1..])
  }

  /** The unchanged lines at the end. */
  function Trailing(lines: seq<Line>): (n: nat)
    ensures n <= |lines|
  {
    if lines == [] || Last(lines).tag != Common then 0 else Trailing(Init(lines)) + 1
  }

  /** The longest run of unchanged lines. */
  function Longest(lines: seq<Line>): (n: nat)
    ensures Trailing(lines) <= n <= |lines|
  {
    if lines == [] then 0 else Max(Longest(Init(lines)), Trailing(lines))
  }

  function Max(a: nat, b: nat): nat {
    if a < b then b else a
  }

  /** Between two unchanged lines, all removed lines come before all added ones. */
  ghost predicate RemovedFirst(lines: seq<Line>) {
    forall i :: 0 <= i < |lines| - 1 ==> !(lines[i].tag == Added && lines[i + 1].tag == Removed)
  }

  ghost predicate AllChanged(lines: seq<Line>) {
    forall i :: 0 <= i < |lines| ==> lines[i].tag != Common
  }

  /** The first changed line stays where it is when lines are put in after it or
      another changed line is put in before it. */
  lemma {:induction false} LeadingOfConcat(a: seq<Line>, b: seq<Line>)
    ensures Leading(a + b) == if Leading(a) == |a| then |a| + Leading(b) else Leading(a)
    ensures Leading(a) == |a| <==> Count(a, Added) == 0 && Count(a, Removed) == 0
  {
    if a == [] {
      assert a + b == b;
    } else {
      assert (a + b)[1..] == a[1..] + b;
      LeadingOfConcat(a[1..], b);
    }
  }

  lemma {:induction false} ChangedKeepsLongest(body: seq<Line>, changed: seq<Line>)
    requires AllChanged(changed)
    ensures Longest(body + changed) == Longest(body)
  {
    if changed == [] {
      assert body + changed == body;
    } else {
      assert Init(body + changed) == body + Init(changed);
      ChangedKeepsLongest(body, Init(changed));
    }
  }

  lemma ChangedAtTheEnd(body: seq<Line>, changed: seq<Line>, changed': seq<Line>)
    requires AllChanged(changed) && AllChanged(changed') && changed' != []
    ensures Trailing(body + changed') == 0
    ensures Leading(body + changed') == Leading(body + changed) == Leading(body)
    ensures Longest(body + changed') == Longest(body + changed) == Longest(body)
  {
    LeadingOfConcat(body, changed');
    LeadingOfConcat(body, changed);
    ChangedKeepsLongest(body, changed');
    ChangedKeepsLongest(body, changed);
    assert Last(body + changed') == Last(changed');
  }

  /** A body that ends in an unchanged line, if at all, and the lines pending after it. */
  ghost predicate InShape(body: seq<Line>, removes: seq<Line>, adds: seq<Line>) {
    && AllTagged(removes, Removed) && AllTagged(adds, Added)
    && RemovedFirst(body) && (body == [] || Last(body).tag == Common)
  }

  lemma NoLinesInShape()
    ensures InShape([], [], [])
  {
  }

  lemma StaysInShape(body: seq<Line>, removes: seq<Line>, adds: seq<Line>, line: Line)
    requires InShape(body, removes, adds)
    ensures match line.tag
            case Common => InShape(body + removes + adds + [line], [], [])
            case Removed => InShape(body, removes + [line], adds)
            case Added => InShape(body, removes, adds + [line])
  {
  }

  lemma ShapeInOrder(body: seq<Line>, removes: seq<Line>, adds: seq<Line>)
    requires InShape(body, removes, adds)
    ensures RemovedFirst(body + removes + adds)
  {
  }

  /** What a new line does to the unchanged lines at both ends and to their runs. */
  lemma InsertedLineEnds(body: seq<Line>, removes: seq<Line>, adds: seq<Line>, line: Line)
    requires InShape(body, removes, adds)
    ensures var old_ := body + removes + adds;
            var new_ := if line.tag.Removed? then body + (removes + [line]) + adds else old_ + [line];
            && Trailing(new_) == (if line.tag.Common? then Trailing(old_) + 1 else 0)
            && Longest(new_) == Max(Longest(old_), Trailing(new_))
            && (if Count(old_, Added) == 0 && Count(old_, Removed) == 0
                then Leading(new_) == |old_| + (if line.tag.Common? then 1 else 0)
                else Leading(new_) == Leading(old_))
  {
    var old_ := body + removes + adds;
    LeadingOfConcat(old_, [line]);
    if line.tag.Removed? {
      assert old_ == body + (removes + adds);
      assert body + (removes + [line]) + adds == body + (removes + [line] + adds);
      ChangedAtTheEnd(body, removes + adds, removes + [line] + adds);
    } else {
      assert Init(old_ + [line]) == old_;
    }
  }
}
