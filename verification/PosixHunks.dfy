/**
  When the header numbers of a unified diff are those of its format: "Diff -u or -U
  Output Format" of the diff utility in POSIX.1-2008.
 */
module PosixHunks {
  import opened EditScripts
  import opened OptimalEdits
  import opened Hunks
  import opened HunkShapes
  import opened UnifiedDiffWriter
  import opened SharedTypes

  /** The number that a range after `before` lines starts with: an empty range has the
      number of the line before it. */
  function RangeStart(before: nat, length: nat): nat {
    if length == 0 then before else before + 1
  }

  /** The header gives the ranges of a hunk after bl lines of left and br lines of right. */
  ghost predicate FollowsFormat(h: HunkText, bl: nat, br: nat) {
    h.leftStart == RangeStart(bl, h.leftLength) && h.rightStart == RangeStart(br, h.rightLength)
  }

  /** The hunk that a reader of the format takes this one for, with starts that count the
      lines before it and one more. */
  function AsRead(h: HunkText): HunkText {
    h.(leftStart := if h.leftLength == 0 then h.leftStart + 1 else h.leftStart,
       rightStart := if h.rightLength == 0 then h.rightStart + 1 else h.rightStart)
  }

  /** Numbers that follow the format are read as the places where the hunk stands. */
  lemma ReadWhereItStands(h: HunkText, bl: nat, br: nat)
    requires FollowsFormat(h, bl, br)
    ensures AsRead(h).leftStart == bl + 1 && AsRead(h).rightStart == br + 1
    ensures AsRead(h).lines == h.lines && AsRead(h).leftLength == h.leftLength && AsRead(h).rightLength == h.rightLength
  {
  }

  function AllAsRead(hunks: seq<HunkText>): (r: seq<HunkText>)
    ensures |r| == |hunks|
  {
    seq(|hunks|, i requires 0 <= i < |hunks| => AsRead(hunks[i]))
  }

  /** No range is empty unless there is nothing on its side at all: all others have context. */
  lemma EmptyRanges(hunks: seq<HunkText>, edits: seq<EditType>, left: seq<string>, right: seq<string>, context: nat,
                    h: HunkText)
    requires Complete(hunks, edits, left, right, context) && h in hunks && context > 0
    ensures h.leftLength == 0 <==> left == []
    ensures h.rightLength == 0 <==> right == []
  {
    EachHunkSpans(hunks, left, right, 0, 0, h);
    SideLengths(h.lines);
    ContextIsCounted(h.lines);
  }

  lemma {:induction false} ContextIsCounted(lines: seq<Line>)
    ensures Leading(lines) <= Count(lines, Common) && Trailing(lines) <= Count(lines, Common)
  {
    if lines != [] {
      ContextIsCounted(lines[1..]);
      ContextIsCounted(Init(lines));
      assert lines == Init(lines) + [Last(lines)];
      SidesOfConcat(Init(lines), [Last(lines)], Common);
    }
  }

  /** A header follows the format exactly if neither side is empty. */
  lemma HeaderFollowsFormat(hunks: seq<HunkText>, edits: seq<EditType>, left: seq<string>, right: seq<string>,
                            context: nat, h: HunkText, bl: nat, br: nat, cl: nat, cr: nat)
    requires Complete(hunks, edits, left, right, context) && h in hunks && context > 0
    requires Spans(h, left, right, bl, br, cl, cr)
    ensures FollowsFormat(h, bl, br) <==> left != [] && right != []
  {
    EmptyRanges(hunks, edits, left, right, context, h);
  }

  lemma ChangesNeedLines(hunks: seq<HunkText>, edits: seq<EditType>, left: seq<string>, right: seq<string>,
                         context: nat)
    requires Complete(hunks, edits, left, right, context) && context > 0
    requires left == [] || right == []
    ensures hunks == [] <==> left == right
  {
    if hunks != [] {
      EachHunkSpans(hunks, left, right, 0, 0, hunks[0]);
      SideLengths(hunks[0].lines);
      assert WellFramed(hunks[0], left, right, context);
    } else {
      assert left[0..|left|] == left && right[0..|right|] == right;
    }
  }

  /** Read by the format, the diff applies exactly if there is nothing to do or neither side
      is empty; and so it does backwards. */
  lemma AppliesAsRead(hunks: seq<HunkText>, edits: seq<EditType>, left: seq<string>, right: seq<string>, context: nat)
    requires Complete(hunks, edits, left, right, context) && context > 0
    ensures Patch(left, 0, 0, AllAsRead(hunks)) == Some(right) <==> left == right || (left != [] && right != [])
    ensures Patch(right, 0, 0, ReverseHunks(AllAsRead(hunks))) == Some(left) <==>
            left == right || (left != [] && right != [])
  {
    if (left != [] && right != []) || hunks == [] {
      SameAsRead(hunks, edits, left, right, context);
      PatchBothWays(hunks, left, right);
      if hunks == [] && (left == [] || right == []) {
        ChangesNeedLines(hunks, edits, left, right, context);
      }
    } else {
      ChangesNeedLines(hunks, edits, left, right, context);
      EmptyRanges(hunks, edits, left, right, context, hunks[0]);
      assert Follows(hunks[0], left, right, 0, 0);
      assert |left[0..hunks[0].leftStart - 1]| == |right[0..hunks[0].rightStart - 1]|;
    }
  }

  lemma SameAsRead(hunks: seq<HunkText>, edits: seq<EditType>, left: seq<string>, right: seq<string>, context: nat)
    requires Complete(hunks, edits, left, right, context) && context > 0
    requires (left != [] && right != []) || hunks == []
    ensures AllAsRead(hunks) == hunks
  {
    forall i | 0 <= i < |hunks| ensures AsRead(hunks[i]) == hunks[i] {
      EmptyRanges(hunks, edits, left, right, context, hunks[i]);
    }
  }

  lemma OneAddedLine(lines: seq<Line>)
    requires lines == [Line(Added, "a")]
    ensures LeftSide(lines) == [] && RightSide(lines) == ["a"]
    ensures Count(lines, Removed) == 0 && Count(lines, Added) == 1
    ensures Places(lines, Removed, 1) == [] && Places(lines, Added, 1) == [1]
    ensures Leading(lines) == Trailing(lines) == Longest(lines) == 0 && RemovedFirst(lines)
  {
    assert lines[1..] == [] && Init(lines) == [] && lines[0].tag == Added;
    assert Places([], Added, 2) == [] && Places([], Removed, 1) == [];
    SidesOfTagged(lines, Added);
    assert Without(lines, Removed) == [lines[0].text] + Without([], Removed);
  }

  lemma OneAddition(left: seq<string>, right: seq<string>, edits: seq<EditType>)
    requires left == [] && right == ["a"] && edits == [Add]
    ensures BestPath(left, right) == edits
    ensures Called(edits, Removed) == [] && Called(edits, Added) == [1]
  {
    assert Init(edits) == [] && Last(edits) == Add;
    assert UsedUp([], Added) == 0 && Called([], Removed) == [] && Called([], Added) == [];
    hide Cost;
    assert BestMove(left, right) == Add && DropBack(left, 0) == [] && DropBack(right, 1) == [];
    assert BestPath<string>([], []) == [];
  }

  /** The header for a line added to nothing: the format asks for a start of zero on the left. */
  lemma EmptySideExample(hunks: seq<HunkText>, left: seq<string>, right: seq<string>)
    requires hunks == [HunkText(1, 0, 1, 1, [Line(Added, "a")])] && left == [] && right == ["a"]
    ensures Complete(hunks, BestPath(left, right), left, right, 3) && !FollowsFormat(hunks[0], 0, 0)
    ensures Patch(left, 0, 0, AllAsRead(hunks)) == None
  {
    OneAddedLine(hunks[0].lines);
    OneAddition(left, right, [Add]);
    hide BestPath, Called, LeftSide, RightSide, Count, Places, Leading, Trailing, Longest, RemovedFirst;
    assert Init(hunks) == [] && Last(hunks) == hunks[0];
    assert WellFramed(hunks[0], left, right, 3);
    assert Accounts(hunks[1..], left, right, 0, 1, 0, 1);
    assert AllPlaces([], Removed) == AllPlaces([], Added) == [];
    assert HunkPlaces(hunks[0], Removed) == [] && HunkPlaces(hunks[0], Added) == [1];
    assert AllPlaces(hunks, Removed) == [] && AllPlaces(hunks, Added) == [1];
  }
}
