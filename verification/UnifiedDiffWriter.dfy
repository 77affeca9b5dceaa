/**
  CreateUnifiedDiff: groups an edit script into hunks with context, and the hunk
  builder that moves removed lines in front of added ones.
 */
module UnifiedDiffWriter {
  import opened EditScripts
  import opened OptimalEdits
  import opened Hunks
  import opened HunkShapes
  import opened SharedTypes

  class Hunk {
    const leftStart: nat
    const rightStart: nat
    var adds: nat
    var removes: nat
    var common: nat
    var body: seq<Line>
    var pendingAdds: seq<Line>
    var pendingRemoves: seq<Line>

    /** The lines in the order in which they will be printed. */
    ghost function Lines(): seq<Line>
      reads this
    {
      body + pendingRemoves + pendingAdds
    }

    /** The line numbers of the removed lines, as the header has them start. */
    ghost function RemovedPlaces(): seq<nat>
      reads this
    {
      Places(Lines(), Removed, leftStart)
    }

    ghost function AddedPlaces(): seq<nat>
      reads this
    {
      Places(Lines(), Added, rightStart)
    }

    ghost predicate Valid()
      reads this
    {
      && InShape(body, pendingRemoves, pendingAdds)
      && adds == Count(Lines(), Added) && removes == Count(Lines(), Removed) && common == Count(Lines(), Common)
    }

    constructor (leftStart: nat, rightStart: nat)
      ensures Valid() && Lines() == []
      ensures this.leftStart == leftStart && this.rightStart == rightStart
    {
      this.leftStart := leftStart;
      this.rightStart := rightStart;
      adds, removes, common := 0, 0, 0;
      body, pendingAdds, pendingRemoves := [], [], [];
      NoLinesInShape();
    }

    /** Whatever order the lines end up in, each side sees the new line last. */
    method PushLine(tag: Tag, text: string)
      requires Valid()
      modifies this
      ensures Valid()
      ensures LeftSide(Lines()) == old(LeftSide(Lines())) + (if tag == Added then [] else [text])
      ensures RightSide(Lines()) == old(RightSide(Lines())) + (if tag == Removed then [] else [text])
      ensures forall t :: Count(Lines(), t) == old(Count(Lines(), t)) + (if t == tag then 1 else 0)
      ensures removes == old(removes) + (if tag == Removed then 1 else 0)
      ensures adds == old(adds) + (if tag == Added then 1 else 0)
      ensures RemovedPlaces() == old(RemovedPlaces()) +
              (if tag == Removed then [leftStart + old(|LeftSide(Lines())|)] else [])
      ensures AddedPlaces() == old(AddedPlaces()) +
              (if tag == Added then [rightStart + old(|RightSide(Lines())|)] else [])
      ensures Trailing(Lines()) == if tag == Common then old(Trailing(Lines())) + 1 else 0
      ensures Longest(Lines()) == Max(old(Longest(Lines())), Trailing(Lines()))
      ensures old(HasEdits()) ==> Leading(Lines()) == old(Leading(Lines()))
      ensures !old(HasEdits()) ==> Leading(Lines()) == old(|Lines()|) + (if tag == Common then 1 else 0)
      ensures |Lines()| == old(|Lines()|) + 1
    {
      ghost var b, rs, s, line := body, pendingRemoves, pendingAdds, Line(tag, text);
      hide InShape, Leading, Trailing, Longest, Places, Without, Count;
      StaysInShape(b, rs, s, line);
      match tag {
        case Common =>
          common := common + 1;
          FlushEdits();
          body := body + [Line(Common, text)];
        case Removed =>
          removes := removes + 1;
          pendingRemoves := pendingRemoves + [Line(Removed, text)];
        case Added =>
          adds := adds + 1;
          pendingAdds := pendingAdds + [Line(Added, text)];
      }
      assert Lines() == if tag == Removed then b + (rs + [line]) + s else b + rs + s + [line];
      InsertedLine(b, rs, s, line);
      InsertedLineEnds(b, rs, s, line);
      InsertedLinePlaces(b, rs, s, line, Removed, leftStart);
      InsertedLinePlaces(b, rs, s, line, Added, rightStart);
    }

    method FlushEdits()
      modifies this`body, this`pendingAdds, this`pendingRemoves
      ensures body == old(Lines()) && pendingAdds == [] && pendingRemoves == []
    {
      body := body + pendingRemoves;
      pendingRemoves := [];
      body := body + pendingAdds;
      pendingAdds := [];
    }

    /** The printed header agrees with the printed body. */
    method PrintTo() returns (h: HunkText)
      requires Valid()
      modifies this
      ensures h.leftStart == leftStart && h.rightStart == rightStart
      ensures h.lines == old(Lines())
      ensures h.leftLength == |LeftSide(h.lines)| && h.rightLength == |RightSide(h.lines)|
      ensures RemovedFirst(h.lines) && (old(HasEdits()) <==> Count(h.lines, Removed) + Count(h.lines, Added) > 0)
    {
      ShapeInOrder(body, pendingRemoves, pendingAdds);
      SideLengths(Lines());
      var leftLength, rightLength := removes + common, adds + common;
      FlushEdits();
      assert body == old(Lines());
      h := HunkText(leftStart, leftLength, rightStart, rightLength, body);
    }

    predicate HasEdits()
      reads this
    {
      adds != 0 || removes != 0
    }
  }

  /** A removed line in front of added ones is still the last one on its side. */
  lemma RemovedBeforeAdded(front: seq<Line>, line: Line, adds: seq<Line>, t: Tag)
    requires line.tag.Removed? && AllTagged(adds, Added)
    ensures Count(front + [line] + adds, t) == Count(front + adds, t) + (if t == Removed then 1 else 0)
    ensures t != Common ==>
              Without(front + [line] + adds, t) == Without(front + adds, t) + (if t == Removed then [] else [line.text])
  {
    SidesOfConcat(front + [line], adds, t);
    SidesOfConcat(front, [line], t);
    SidesOfConcat(front, adds, t);
    SidesOfTagged(adds, Added);
    assert Without([line], t) == if t == Removed then [] else [line.text];
    assert Count([line], t) == if t == Removed then 1 else 0;
    hide Without, Count;
  }

  /** Where a new line goes, depending on its tag, does not matter to either side. */
  lemma InsertedLine(body: seq<Line>, removes: seq<Line>, adds: seq<Line>, line: Line)
    requires InShape(body, removes, adds)
    ensures var old_ := body + removes + adds;
            var new_ := if line.tag.Removed? then body + (removes + [line]) + adds else old_ + [line];
            && LeftSide(new_) == LeftSide(old_) + (if line.tag.Added? then [] else [line.text])
            && RightSide(new_) == RightSide(old_) + (if line.tag.Removed? then [] else [line.text])
            && forall t :: Count(new_, t) == Count(old_, t) + (if t == line.tag then 1 else 0)
  {
    assert body + (removes + [line]) == body + removes + [line];
    forall t: Tag
      ensures var old_ := body + removes + adds;
              var new_ := if line.tag.Removed? then body + (removes + [line]) + adds else old_ + [line];
              && Count(new_, t) == Count(old_, t) + (if t == line.tag then 1 else 0)
              && (t != Common ==> Without(new_, t) == Without(old_, t) + (if t == line.tag then [] else [line.text]))
    {
      if line.tag.Removed? {
        RemovedBeforeAdded(body + removes, line, adds, t);
      } else {
        SidesOfConcat(body + removes + adds, [line], t);
      }
    }
  }

  lemma RemovedBeforeAddedPlaces(front: seq<Line>, line: Line, adds: seq<Line>, t: Tag, at: nat)
    requires line.tag.Removed? && AllTagged(adds, Added) && t != Common
    ensures Places(front + [line] + adds, t, at) ==
            Places(front + adds, t, at) + (if t == Removed then [at + |Without(front + adds, Added)|] else [])
  {
    var side := at + |Without(front, ReverseTag(t))|;
    PlacesOfConcat(front + [line], adds, t, at);
    PlacesOfConcat(front, [line], t, at);
    PlacesOfConcat(front, adds, t, at);
    SidesOfConcat(front, [line], ReverseTag(t));
    SidesOfConcat(front, adds, ReverseTag(t));
    SidesOfTagged(adds, Added);
    if t == Removed {
      NoPlaces(adds, t, side);
      NoPlaces(adds, t, side + 1);
    }
  }

  /** Nor does it matter to the line numbers: a new line gets the next one of its side. */
  lemma InsertedLinePlaces(body: seq<Line>, removes: seq<Line>, adds: seq<Line>, line: Line, t: Tag, at: nat)
    requires InShape(body, removes, adds) && t != Common
    ensures var old_ := body + removes + adds;
            var new_ := if line.tag.Removed? then body + (removes + [line]) + adds else old_ + [line];
            Places(new_, t, at) ==
            Places(old_, t, at) + (if t == line.tag then [at + |Without(old_, ReverseTag(t))|] else [])
  {
    if line.tag.Removed? {
      assert body + (removes + [line]) == body + removes + [line];
      RemovedBeforeAddedPlaces(body + removes, line, adds, t, at);
    } else {
      PlacesOfConcat(body + removes + adds, [line], t, at);
    }
  }

  // ---- what a script calls for ------------------------------------------------------

  predicate Removes(m: EditType) {
    m.Remove? || m.Replace?
  }

  predicate Adds(m: EditType) {
    m.Add? || m.Replace?
  }

  predicate CallsFor(m: EditType, tag: Tag) {
    (tag == Removed && Removes(m)) || (tag == Added && Adds(m))
  }

  /** The lines that a script uses up on the left (tag Removed) or on the right (Added). */
  function UsedUp(edits: seq<EditType>, tag: Tag): nat {
    if edits == [] then 0
    else UsedUp(Init(edits), tag) + (if tag == Removed then LeftStep(Last(edits)) else RightStep(Last(edits)))
  }

  /** The numbers of the lines that a script removes from the left or adds from the right. */
  function Called(edits: seq<EditType>, tag: Tag): seq<nat> {
    if edits == [] then []
    else Called(Init(edits), tag) + (if CallsFor(Last(edits), tag) then [UsedUp(Init(edits), tag) + 1] else [])
  }

  function HunkPlaces(h: HunkText, tag: Tag): seq<nat> {
    Places(h.lines, tag, if tag == Removed then h.leftStart else h.rightStart)
  }

  /** The numbers of the lines with the tag in a list of hunks. */
  function AllPlaces(hunks: seq<HunkText>, tag: Tag): seq<nat> {
    if hunks == [] then [] else AllPlaces(Init(hunks), tag) + HunkPlaces(Last(hunks), tag)
  }

  lemma CalledNext(edits: seq<EditType>, e: nat, tag: Tag)
    requires e < |edits|
    ensures Called(edits[..e + 1], tag) ==
            Called(edits[..e], tag) + (if CallsFor(edits[e], tag) then [UsedUp(edits[..e], tag) + 1] else [])
    ensures UsedUp(edits[..e + 1], tag) ==
            UsedUp(edits[..e], tag) + (if tag == Removed then LeftStep(edits[e]) else RightStep(edits[e]))
  {
    assert Init(edits[..e + 1]) == edits[..e];
  }

  /** A script calls for every line at most once, in order, and for none that it does not
      come to. */
  lemma {:induction false} CalledInOrder(edits: seq<EditType>, tag: Tag)
    ensures forall i, j :: 0 <= i < j < |Called(edits, tag)| ==> Called(edits, tag)[i] < Called(edits, tag)[j]
    ensures forall i :: 0 <= i < |Called(edits, tag)| ==> 0 < Called(edits, tag)[i] <= UsedUp(edits, tag)
  {
    if edits != [] {
      CalledInOrder(Init(edits), tag);
    }
  }

  /** The first edit from e on that is not a match, or the end. */
  function MatchesEnd(edits: seq<EditType>, e: nat): (end: nat)
    requires e <= |edits|
    ensures e <= end <= |edits|
    ensures forall i :: e <= i < end ==> edits[i] == Match
    ensures end < |edits| ==> edits[end] != Match
    decreases |edits| - e
  {
    if e < |edits| && edits[e] == Match then MatchesEnd(edits, e + 1) else e
  }

  // ---- walking the script --------------------------------------------------------------

  /** The rest of the script transforms the rest of the lines; l and r lines are used up. */
  ghost predicate At(edits: seq<EditType>, left: seq<string>, right: seq<string>, e: nat, l: nat, r: nat) {
    && e <= |edits| && l <= |left| && r <= |right|
    && Transforms(edits[e..], left[l..], right[r..])
    && l == UsedUp(edits[..e], Removed) && r == UsedUp(edits[..e], Added)
  }

  lemma AtNext(edits: seq<EditType>, left: seq<string>, right: seq<string>, e: nat, l: nat, r: nat)
    requires At(edits, left, right, e, l, r) && e < |edits|
    ensures l + LeftStep(edits[e]) <= |left| && r + RightStep(edits[e]) <= |right|
    ensures At(edits, left, right, e + 1, l + LeftStep(edits[e]), r + RightStep(edits[e]))
    ensures edits[e] == Match ==> left[l] == right[r]
  {
    var m := edits[e];
    CalledNext(edits, e, Removed);
    CalledNext(edits, e, Added);
    assert edits[e..][1..] == edits[e + 1..];
    assert left[l..][LeftStep(m)..] == left[l + LeftStep(m)..];
    assert right[r..][RightStep(m)..] == right[r + RightStep(m)..];
  }

  /** Equal stretches stay equal when both grow by a matched line. */
  lemma GapGrows(left: seq<string>, right: seq<string>, pl: nat, pr: nat, l: nat, r: nat)
    requires pl <= l < |left| && pr <= r < |right|
    requires left[pl..l] == right[pr..r] && left[l] == right[r]
    ensures left[pl..l + 1] == right[pr..r + 1]
  {
    assert left[pl..l + 1] == left[pl..l] + [left[l]];
    assert right[pr..r + 1] == right[pr..r] + [right[r]];
  }

  lemma GapShrinks(left: seq<string>, right: seq<string>, pl: nat, pr: nat, l: nat, r: nat, k: nat)
    requires pl <= l - k <= l <= |left| && pr <= r <= |right| && left[pl..l] == right[pr..r]
    ensures pr <= r - k && left[pl..l - k] == right[pr..r - k] && left[l - k..l] == right[r - k..r]
  {
    assert |left[pl..l]| == |right[pr..r]|;
    SliceOfSlice(left, pl, l - k, l);
    SliceOfSlice(right, pr, r - k, r);
  }

  lemma SliceOfSlice<T>(s: seq<T>, a: nat, b: nat, c: nat)
    requires a <= b <= c <= |s|
    ensures s[a..b] == s[a..c][..b - a] && s[b..c] == s[a..c][b - a..]
  {
  }

  /** A new hunk that starts with the `prefix` lines before l and r. */
  method StartHunk(left: seq<string>, l: nat, r: nat, prefix: nat) returns (hunk: Hunk)
    requires prefix <= l <= |left| && prefix <= r
    ensures fresh(hunk) && hunk.Valid() && !hunk.HasEdits()
    ensures hunk.leftStart == l - prefix + 1 && hunk.rightStart == r - prefix + 1
    ensures LeftSide(hunk.Lines()) == RightSide(hunk.Lines()) == left[l - prefix..l]
    ensures |hunk.Lines()| == prefix && Longest(hunk.Lines()) <= prefix
  {
    hunk := new Hunk(l - prefix + 1, r - prefix + 1);
    hide Hunk.Valid, Hunk.Lines, Leading, Trailing, Places, Count;
    var i := prefix;
    while i > 0
      invariant 0 <= i <= prefix
      invariant hunk.Valid() && !hunk.HasEdits() && |hunk.Lines()| == prefix - i
      invariant LeftSide(hunk.Lines()) == RightSide(hunk.Lines()) == left[l - prefix..l - i]
    {
      hunk.PushLine(Common, left[l - i]);
      assert left[l - prefix..l - i + 1] == left[l - prefix..l - i] + [left[l - i]];
      i := i - 1;
    }
  }

  /** How an edit changes the unchanged lines at both ends of a hunk. */
  ghost predicate EndsAfter(lines: seq<Line>, changed: bool, lines': seq<Line>, edit: EditType) {
    && Trailing(lines') == (if edit == Match then Trailing(lines) + 1 else 0)
    && Longest(lines') == Max(Longest(lines), Trailing(lines'))
    && (changed ==> Leading(lines') == Leading(lines))
    && (!changed && edit != Match ==> Leading(lines') == |lines|)
  }

  /** What an edit adds to both sides of a hunk. */
  ghost predicate SidesAfter(lines: seq<Line>, lines': seq<Line>, edit: EditType, left: seq<string>,
                             right: seq<string>, l: nat, r: nat)
    requires l + LeftStep(edit) <= |left| && r + RightStep(edit) <= |right|
  {
    && LeftSide(lines') == LeftSide(lines) + left[l..l + LeftStep(edit)]
    && RightSide(lines') == RightSide(lines) + right[r..r + RightStep(edit)]
  }

  /** The line numbers it adds. */
  ghost predicate PlacesAfter(lines: seq<Line>, removed: seq<nat>, added: seq<nat>, removed': seq<nat>,
                              added': seq<nat>, edit: EditType, leftStart: nat, rightStart: nat) {
    && removed' == removed + (if Removes(edit) then [leftStart + |LeftSide(lines)|] else [])
    && added' == added + (if Adds(edit) then [rightStart + |RightSide(lines)|] else [])
  }

  /** The lines one edit contributes. */
  method PushEdit(hunk: Hunk, edit: EditType, left: seq<string>, right: seq<string>, l: nat, r: nat)
    requires hunk.Valid()
    requires l + LeftStep(edit) <= |left| && r + RightStep(edit) <= |right|
    requires edit == Match ==> left[l] == right[r]
    modifies hunk
    ensures hunk.Valid()
    ensures SidesAfter(old(hunk.Lines()), hunk.Lines(), edit, left, right, l, r)
    ensures PlacesAfter(old(hunk.Lines()), old(hunk.RemovedPlaces()), old(hunk.AddedPlaces()),
                        hunk.RemovedPlaces(), hunk.AddedPlaces(), edit, hunk.leftStart, hunk.rightStart)
    ensures hunk.HasEdits() <==> old(hunk.HasEdits()) || edit != Match
    ensures EndsAfter(old(hunk.Lines()), old(hunk.HasEdits()), hunk.Lines(), edit)
  {
    hide Hunk.Valid, Hunk.Lines, LeftSide, RightSide, Count, Places, Leading, Trailing, Longest;
    if edit == Match || edit == Remove || edit == Replace {
      hunk.PushLine(if edit == Match then Common else Removed, left[l]);
    }
    if edit == Add || edit == Replace {
      hunk.PushLine(Added, right[r]);
    }
  }

  /** From e on there is no further edit, or it is at least `context` matches away. */
  predicate Far(edits: seq<EditType>, e: nat, context: nat)
    requires e <= |edits|
  {
    MatchesEnd(edits, e) == |edits| || MatchesEnd(edits, e) - e >= context
  }

  method NextEditIsFar(edits: seq<EditType>, e: nat, context: nat) returns (far: bool)
    requires e <= |edits|
    ensures far == Far(edits, e, context)
  {
    var it := e;
    while it != |edits| && edits[it] == Match
      invariant e <= it <= |edits|
      invariant MatchesEnd(edits, e) == MatchesEnd(edits, it)
    {
      it := it + 1;
    }
    far := it == |edits| || it - e >= context;
  }

  /** The lines collected so far are bl..l of left and br..r of right. */
  ghost predicate Window(lines: seq<Line>, left: seq<string>, right: seq<string>, bl: nat, br: nat, l: nat, r: nat) {
    && bl <= l <= |left| && br <= r <= |right|
    && LeftSide(lines) == left[bl..l] && RightSide(lines) == right[br..r]
  }

  lemma WindowGrows(lines: seq<Line>, lines': seq<Line>, left: seq<string>, right: seq<string>,
                    bl: nat, br: nat, l: nat, r: nat, l': nat, r': nat)
    requires Window(lines, left, right, bl, br, l, r)
    requires l <= l' <= |left| && r <= r' <= |right|
    requires LeftSide(lines') == LeftSide(lines) + left[l..l']
    requires RightSide(lines') == RightSide(lines) + right[r..r']
    ensures Window(lines', left, right, bl, br, l', r')
  {
    hide LeftSide, RightSide;
    assert left[bl..l'] == left[bl..l] + left[l..l'];
    assert right[br..r'] == right[br..r] + right[r..r'];
  }

  /** These are the numbers of the lines that the script calls for between two edits. */
  ghost predicate Tallies(removed: seq<nat>, added: seq<nat>, edits: seq<EditType>, e0: nat, e: nat)
    requires e0 <= e <= |edits|
  {
    && Called(edits[..e], Removed) == Called(edits[..e0], Removed) + removed
    && Called(edits[..e], Added) == Called(edits[..e0], Added) + added
  }

  lemma TalliesNext(removed: seq<nat>, added: seq<nat>, edits: seq<EditType>, e0: nat, e: nat, l: nat, r: nat)
    requires e0 <= e < |edits| && Tallies(removed, added, edits, e0, e)
    requires l == UsedUp(edits[..e], Removed) && r == UsedUp(edits[..e], Added)
    ensures Tallies(removed + (if Removes(edits[e]) then [l + 1] else []),
                    added + (if Adds(edits[e]) then [r + 1] else []),
                    edits, e0, e + 1)
  {
    CalledNext(edits, e, Removed);
    CalledNext(edits, e, Added);
  }

  /** After n matches, if that is more than the context, the next edit is so close that the
      contexts overlap. */
  ghost predicate Near(edits: seq<EditType>, e: nat, n: nat, context: nat)
    requires e <= |edits|
  {
    n > context ==> !Far(edits, e, context) && n + (MatchesEnd(edits, e) - e) < 2 * context
  }

  lemma NearNext(edits: seq<EditType>, e: nat, n: nat, context: nat)
    requires e < |edits| && Near(edits, e, n, context) && context > 0
    requires n >= context ==> !Far(edits, e, context)
    ensures var next := if edits[e] == Match then n + 1 else 0;
            next < 2 * context && Near(edits, e + 1, next, context)
  {
  }

  /** `prefix` unchanged lines first, `context` last unless the input is over, and in between
      none so long that two contexts fit into it. */
  ghost predicate ContextFits(lines: seq<Line>, prefix: nat, context: nat, over: bool) {
    && Leading(lines) == prefix
    && Trailing(lines) <= context
    && (Trailing(lines) == context || over)
    && Longest(lines) < 2 * context
  }

  /** The lines come from the edits from e0 up to e, and so do the numbers of those they change. */
  ghost predicate Tracked(lines: seq<Line>, removed: seq<nat>, added: seq<nat>, edits: seq<EditType>,
                          left: seq<string>, right: seq<string>, e0: nat, bl: nat, br: nat, e: nat, l: nat, r: nat) {
    && e0 <= e && At(edits, left, right, e, l, r) && Window(lines, left, right, bl, br, l, r)
    && Tallies(removed, added, edits, e0, e)
  }

  lemma TrackedNext(lines: seq<Line>, removed: seq<nat>, added: seq<nat>, lines': seq<Line>, removed': seq<nat>,
                    added': seq<nat>, edits: seq<EditType>, left: seq<string>, right: seq<string>,
                    e0: nat, bl: nat, br: nat, e: nat, l: nat, r: nat)
    requires Tracked(lines, removed, added, edits, left, right, e0, bl, br, e, l, r) && e < |edits|
    requires l + LeftStep(edits[e]) <= |left| && r + RightStep(edits[e]) <= |right|
    requires SidesAfter(lines, lines', edits[e], left, right, l, r)
    requires PlacesAfter(lines, removed, added, removed', added', edits[e], bl + 1, br + 1)
    ensures Tracked(lines', removed', added', edits, left, right, e0, bl, br,
                    e + 1, l + LeftStep(edits[e]), r + RightStep(edits[e]))
  {
    AtNext(edits, left, right, e, l, r);
    assert bl + |LeftSide(lines)| == l && br + |RightSide(lines)| == r;
    hide Transforms, UsedUp, Called, LeftSide, RightSide;
    TalliesNext(removed, added, edits, e0, e, l, r);
    WindowGrows(lines, lines', left, right, bl, br, l, r, l + LeftStep(edits[e]), r + RightStep(edits[e]));
  }

  /** The last n edits are matches; unchanged lines run no longer than a hunk allows. */
  ghost predicate Runs(lines: seq<Line>, changed: bool, edits: seq<EditType>, context: nat, prefix: nat,
                       e0: nat, e: nat, l: nat, r: nat, n: nat)
    requires e <= |edits|
  {
    && (changed <==> e0 < e)
    && n <= l && n <= r && Near(edits, e, n, context) && Longest(lines) < 2 * context
    && (if e == e0 then n == 0 && |lines| == prefix else Leading(lines) == prefix && Trailing(lines) == n)
  }

  lemma RunsNext(lines: seq<Line>, changed: bool, lines': seq<Line>, edits: seq<EditType>, context: nat, prefix: nat,
                 e0: nat, e: nat, l: nat, r: nat, n: nat)
    requires e0 <= e < |edits| && Runs(lines, changed, edits, context, prefix, e0, e, l, r, n)
    requires context > 0 && (n >= context ==> !Far(edits, e, context)) && edits[e0] != Match
    requires EndsAfter(lines, changed, lines', edits[e])
    ensures Runs(lines', changed || edits[e] != Match, edits, context, prefix, e0, e + 1, l + LeftStep(edits[e]),
                 r + RightStep(edits[e]), if edits[e] == Match then n + 1 else 0)
  {
    NearNext(edits, e, n, context);
    hide Near, Far, MatchesEnd, Leading, Trailing, Longest;
  }

  /** The hunk holds the edits from e0 up to e. */
  ghost predicate Filling(hunk: Hunk, edits: seq<EditType>, left: seq<string>, right: seq<string>, context: nat,
                          e0: nat, bl: nat, br: nat, prefix: nat, e: nat, l: nat, r: nat, n: nat)
    reads hunk
  {
    && hunk.Valid() && hunk.leftStart == bl + 1 && hunk.rightStart == br + 1
    && Tracked(hunk.Lines(), hunk.RemovedPlaces(), hunk.AddedPlaces(), edits, left, right, e0, bl, br, e, l, r)
    && Runs(hunk.Lines(), hunk.HasEdits(), edits, context, prefix, e0, e, l, r, n)
  }

  lemma CanTake(hunk: Hunk, edits: seq<EditType>, left: seq<string>, right: seq<string>, context: nat,
                e0: nat, bl: nat, br: nat, prefix: nat, e: nat, l: nat, r: nat, n: nat)
    requires Filling(hunk, edits, left, right, context, e0, bl, br, prefix, e, l, r, n) && e < |edits|
    ensures hunk.Valid() && hunk.leftStart == bl + 1 && hunk.rightStart == br + 1
    ensures Tracked(hunk.Lines(), hunk.RemovedPlaces(), hunk.AddedPlaces(), edits, left, right, e0, bl, br, e, l, r)
    ensures e0 <= e && Runs(hunk.Lines(), hunk.HasEdits(), edits, context, prefix, e0, e, l, r, n)
    ensures l + LeftStep(edits[e]) <= |left| && r + RightStep(edits[e]) <= |right|
    ensures edits[e] == Match ==> left[l] == right[r]
  {
    AtNext(edits, left, right, e, l, r);
  }

  lemma IsFilling(hunk: Hunk, edits: seq<EditType>, left: seq<string>, right: seq<string>, context: nat,
                  e0: nat, bl: nat, br: nat, prefix: nat, e: nat, l: nat, r: nat, n: nat)
    requires hunk.Valid() && hunk.leftStart == bl + 1 && hunk.rightStart == br + 1
    requires Tracked(hunk.Lines(), hunk.RemovedPlaces(), hunk.AddedPlaces(), edits, left, right, e0, bl, br, e, l, r)
    requires e <= |edits| && Runs(hunk.Lines(), hunk.HasEdits(), edits, context, prefix, e0, e, l, r, n)
    ensures Filling(hunk, edits, left, right, context, e0, bl, br, prefix, e, l, r, n)
  {
  }

  /** Pushes one edit and advances past it. */
  method TakeEdit(hunk: Hunk, edits: seq<EditType>, left: seq<string>, right: seq<string>, context: nat,
                  e: nat, l: nat, r: nat, ghost e0: nat, ghost bl: nat, ghost br: nat, ghost prefix: nat, ghost n: nat)
    returns (e': nat, l': nat, r': nat)
    requires Filling(hunk, edits, left, right, context, e0, bl, br, prefix, e, l, r, n)
    requires e < |edits| && context > 0 && (n >= context ==> !Far(edits, e, context)) && edits[e0] != Match
    modifies hunk
    ensures e' == e + 1
    ensures Filling(hunk, edits, left, right, context, e0, bl, br, prefix, e', l', r',
                    if edits[e] == Match then n + 1 else 0)
  {
    hide *;
    CanTake(hunk, edits, left, right, context, e0, bl, br, prefix, e, l, r, n);
    ghost var before, changed := hunk.Lines(), hunk.HasEdits();
    ghost var removed, added := hunk.RemovedPlaces(), hunk.AddedPlaces();
    PushEdit(hunk, edits[e], left, right, l, r);
    TrackedNext(before, removed, added, hunk.Lines(), hunk.RemovedPlaces(), hunk.AddedPlaces(), edits, left, right,
      e0, bl, br, e, l, r);
    RunsNext(before, changed, hunk.Lines(), edits, context, prefix, e0, e, l, r, n);
    IsFilling(hunk, edits, left, right, context, e0, bl, br, prefix, e + 1, l + LeftStep(edits[e]),
      r + RightStep(edits[e]), if edits[e] == Match then n + 1 else 0);
    e', l', r' := e + 1, l + LeftStep(edits[e]), r + RightStep(edits[e]);
  }

  lemma StartsFilling(hunk: Hunk, edits: seq<EditType>, left: seq<string>, right: seq<string>, context: nat,
                      e: nat, bl: nat, br: nat, l: nat, r: nat)
    requires hunk.Valid() && !hunk.HasEdits() && hunk.leftStart == bl + 1 && hunk.rightStart == br + 1
    requires At(edits, left, right, e, l, r) && Window(hunk.Lines(), left, right, bl, br, l, r)
    requires Longest(hunk.Lines()) <= context && context > 0
    ensures Filling(hunk, edits, left, right, context, e, bl, br, |hunk.Lines()|, e, l, r, 0)
  {
    PlacesAreCounted(hunk.Lines(), Removed, hunk.leftStart);
    PlacesAreCounted(hunk.Lines(), Added, hunk.rightStart);
  }

  /** Where the script is over or the next edit is far, the hunk is full. */
  lemma StopsFilling(hunk: Hunk, edits: seq<EditType>, left: seq<string>, right: seq<string>, context: nat,
                     e0: nat, bl: nat, br: nat, prefix: nat, e: nat, l: nat, r: nat, n: nat)
    requires Filling(hunk, edits, left, right, context, e0, bl, br, prefix, e, l, r, n) && context > 0 && e0 < |edits|
    requires e == |edits| || (n >= context && Far(edits, e, context))
    ensures hunk.Valid() && At(edits, left, right, e, l, r) && Window(hunk.Lines(), left, right, bl, br, l, r)
    ensures e0 < e && hunk.HasEdits() && Tallies(hunk.RemovedPlaces(), hunk.AddedPlaces(), edits, e0, e)
    ensures ContextFits(hunk.Lines(), prefix, context, e == |edits|)
    ensures e == |edits| || (l >= context && r >= context)
  {
  }

  /** Pushes edits until there is enough suffix or the script is over. */
  method FillHunk(hunk: Hunk, edits: seq<EditType>, left: seq<string>, right: seq<string>, context: nat,
                  e0: nat, l0: nat, r0: nat, ghost bl: nat, ghost br: nat)
    returns (e: nat, l: nat, r: nat)
    requires hunk.Valid() && !hunk.HasEdits() && hunk.leftStart == bl + 1 && hunk.rightStart == br + 1
    requires At(edits, left, right, e0, l0, r0) && Longest(hunk.Lines()) <= context
    requires e0 < |edits| && context > 0 ==>
               edits[e0] != Match && Window(hunk.Lines(), left, right, bl, br, l0, r0)
    modifies hunk
    ensures hunk.Valid() && At(edits, left, right, e, l, r)
    ensures if context > 0 && e0 < |edits|
            then
              && e0 < e && hunk.HasEdits() && Window(hunk.Lines(), left, right, bl, br, l, r)
              && Tallies(hunk.RemovedPlaces(), hunk.AddedPlaces(), edits, e0, e)
              && ContextFits(hunk.Lines(), old(|hunk.Lines()|), context, e == |edits|)
            else !hunk.HasEdits() && e == e0 && l == l0 && r == r0
    ensures e == |edits| || (Far(edits, e, context) && l >= context && r >= context)
  {
    e, l, r := e0, l0, r0;
    ghost var prefix, some := |hunk.Lines()|, context > 0 && e0 < |edits|;
    if some {
      StartsFilling(hunk, edits, left, right, context, e, bl, br, l, r);
    }
    assert e <= |edits| && (context == 0 ==> Far(edits, e, context));
    hide *;
    var nSuffix := 0;
    while e < |edits|
      invariant e <= |edits|
      invariant if some then Filling(hunk, edits, left, right, context, e0, bl, br, prefix, e, l, r, nSuffix)
                else hunk.Valid() && !hunk.HasEdits() && e == e0 && l == l0 && r == r0
      decreases |edits| - e
    {
      if nSuffix >= context {
        var far := NextEditIsFar(edits, e, context);
        if far {
          if some {
            StopsFilling(hunk, edits, left, right, context, e0, bl, br, prefix, e, l, r, nSuffix);
          }
          return;
        }
      }
      var edit := edits[e];
      e, l, r := TakeEdit(hunk, edits, left, right, context, e, l, r, e0, bl, br, prefix, nSuffix);
      nSuffix := if edit == Match then nSuffix + 1 else 0;
    }
    if some {
      StopsFilling(hunk, edits, left, right, context, e0, bl, br, prefix, e, l, r, nSuffix);
    }
  }

  /** The hunk has an edit, and around its edits the context asked for, or as much
      as there is at the start and the end of the input. Its edits are so close that
      their contexts overlap, and removed lines come before added ones. */
  ghost predicate WellFramed(h: HunkText, left: seq<string>, right: seq<string>, context: nat) {
    && Count(h.lines, Removed) + Count(h.lines, Added) > 0
    && Leading(h.lines) <= context && (Leading(h.lines) == context || h.leftStart == h.rightStart == 1)
    && Trailing(h.lines) <= context
    && (Trailing(h.lines) == context || (LeftEnd(h) == |left| && RightEnd(h) == |right|))
    && Longest(h.lines) < 2 * context
    && RemovedFirst(h.lines)
  }

  /** Everything before edit e has been written: positions l and r are where the
      last hunk ended, and far enough from the next edit. */
  ghost predicate Written(hunks: seq<HunkText>, edits: seq<EditType>, left: seq<string>, right: seq<string>,
                          context: nat, e: nat, l: nat, r: nat) {
    && At(edits, left, right, e, l, r)
    && Accounts(hunks, left, right, 0, 0, l, r)
    && (forall h :: h in hunks ==> WellFramed(h, left, right, context))
    && AllPlaces(hunks, Removed) == Called(edits[..e], Removed) && AllPlaces(hunks, Added) == Called(edits[..e], Added)
    && (if hunks == [] then e == l == r == 0
        else context > 0 && (e == |edits| || (Far(edits, e, context) && l >= context && r >= context)))
  }

  lemma HunkWritten(hunks: seq<HunkText>, h: HunkText, edits: seq<EditType>, left: seq<string>, right: seq<string>,
                    e0: nat, pl: nat, pr: nat, e1: nat, bl: nat, br: nat, e: nat, l: nat, r: nat)
    requires e0 <= e1 <= e <= |edits|
    requires Accounts(hunks, left, right, 0, 0, pl, pr)
    requires AllPlaces(hunks, Removed) == Called(edits[..e0], Removed) &&
             AllPlaces(hunks, Added) == Called(edits[..e0], Added)
    requires Tallies([], [], edits, e0, e1)
    requires pl <= bl <= |left| && pr <= br <= |right| && left[pl..bl] == right[pr..br]
    requires Window(h.lines, left, right, bl, br, l, r) && HeaderFits(h, bl, br)
    requires Tallies(HunkPlaces(h, Removed), HunkPlaces(h, Added), edits, e1, e)
    ensures Accounts(hunks + [h], left, right, 0, 0, l, r)
    ensures AllPlaces(hunks + [h], Removed) == Called(edits[..e], Removed)
    ensures AllPlaces(hunks + [h], Added) == Called(edits[..e], Added)
  {
    AccountsForMore(hunks, left, right, 0, 0, pl, pr, bl, br);
    AccountsAppend(hunks, left, right, 0, 0, bl, br, h, l, r);
    assert Init(hunks + [h]) == hunks;
  }

  /** Skips matches up to the next edit. */
  method SkipMatches(edits: seq<EditType>, left: seq<string>, right: seq<string>, e0: nat, l0: nat, r0: nat)
    returns (e: nat, l: nat, r: nat)
    requires At(edits, left, right, e0, l0, r0)
    ensures At(edits, left, right, e, l, r) && e == MatchesEnd(edits, e0)
    ensures l - l0 == r - r0 == e - e0 && left[l0..l] == right[r0..r]
    ensures Tallies([], [], edits, e0, e)
  {
    e, l, r := e0, l0, r0;
    while e < |edits| && edits[e] == Match
      invariant At(edits, left, right, e, l, r) && MatchesEnd(edits, e0) == MatchesEnd(edits, e)
      invariant l - l0 == r - r0 == e - e0 >= 0 && left[l0..l] == right[r0..r]
      invariant Tallies([], [], edits, e0, e)
    {
      AtNext(edits, left, right, e, l, r);
      GapGrows(left, right, l0, r0, l, r);
      TalliesNext([], [], edits, e0, e, l, r);
      e, l, r := e + 1, l + 1, r + 1;
    }
  }

  /** At the end of the script only matches have not been written. */
  lemma NothingLeft(hunks: seq<HunkText>, edits: seq<EditType>, left: seq<string>, right: seq<string>,
                    e: nat, pl: nat, pr: nat, l: nat, r: nat)
    requires At(edits, left, right, |edits|, l, r)
    requires Accounts(hunks, left, right, 0, 0, pl, pr)
    requires pl <= l && pr <= r && left[pl..l] == right[pr..r]
    requires e <= |edits| && Tallies([], [], edits, e, |edits|)
    requires AllPlaces(hunks, Removed) == Called(edits[..e], Removed) &&
             AllPlaces(hunks, Added) == Called(edits[..e], Added)
    ensures Accounts(hunks, left, right, 0, 0, |left|, |right|)
    ensures AllPlaces(hunks, Removed) == Called(edits, Removed) && AllPlaces(hunks, Added) == Called(edits, Added)
  {
    assert left[l..] == [] && right[r..] == [];
    assert edits[..|edits|] == edits;
    hide At, Accounts, Called, AllPlaces;
    AccountsForMore(hunks, left, right, 0, 0, pl, pr, l, r);
  }

  lemma DiffApplies(hunks: seq<HunkText>, edits: seq<EditType>, left: seq<string>, right: seq<string>, context: nat)
    requires if context == 0 then hunks == [] else Complete(hunks, edits, left, right, context)
    ensures Patch(left, 0, 0, hunks) == Some(right) <==> context > 0 || left == right
    ensures Patch(right, 0, 0, ReverseHunks(hunks)) == Some(left) <==> context > 0 || left == right
  {
    if context == 0 {
      assert left[0..] == left && right[0..] == right;
    } else {
      PatchBothWays(hunks, left, right);
    }
  }

  ghost predicate Complete(hunks: seq<HunkText>, edits: seq<EditType>, left: seq<string>, right: seq<string>,
                        context: nat) {
    && Accounts(hunks, left, right, 0, 0, |left|, |right|)
    && (forall h :: h in hunks ==> WellFramed(h, left, right, context))
    && forall tag :: tag != Common ==> AllPlaces(hunks, tag) == Called(edits, tag)
  }

  /** The header numbers say where the window is. */
  ghost predicate HeaderFits(h: HunkText, bl: nat, br: nat) {
    && h.leftStart == bl + 1 && h.rightStart == br + 1
    && h.leftLength == |LeftSide(h.lines)| && h.rightLength == |RightSide(h.lines)|
  }

  lemma IsWellFramed(h: HunkText, edits: seq<EditType>, left: seq<string>, right: seq<string>, context: nat,
                     l0: nat, r0: nat, e: nat, l: nat, r: nat)
    requires At(edits, left, right, e, l, r) && (l0 >= context || l0 == r0) && Min(l0, context) <= r0
    requires var prefix := Min(l0, context);
             && Window(h.lines, left, right, l0 - prefix, r0 - prefix, l, r)
             && HeaderFits(h, l0 - prefix, r0 - prefix)
             && ContextFits(h.lines, prefix, context, e == |edits|)
    requires Count(h.lines, Removed) + Count(h.lines, Added) > 0 && RemovedFirst(h.lines)
    ensures WellFramed(h, left, right, context)
  {
    assert LeftEnd(h) == l;
  }

  /** The hunk around the edit at e0, if there is one and there is to be context. */
  method BuildHunk(edits: seq<EditType>, left: seq<string>, right: seq<string>, context: nat, e0: nat, l0: nat, r0: nat)
    returns (next: Option<HunkText>, e: nat, l: nat, r: nat)
    requires At(edits, left, right, e0, l0, r0) && Min(l0, context) <= r0 && (l0 >= context || l0 == r0)
    requires e0 < |edits| && context > 0 ==>
               edits[e0] != Match &&
               left[l0 - Min(l0, context)..l0] == right[r0 - Min(l0, context)..r0]
    ensures next.Some? <==> context > 0 && e0 < |edits|
    ensures e0 <= e && At(edits, left, right, e, l, r)
    ensures next.Some? ==>
              var h, bl, br := next.value, l0 - Min(l0, context), r0 - Min(l0, context);
              && e0 < e
              && Window(h.lines, left, right, bl, br, l, r) && HeaderFits(h, bl, br)
              && Tallies(HunkPlaces(h, Removed), HunkPlaces(h, Added), edits, e0, e)
              && WellFramed(h, left, right, context)
              && (e == |edits| || (Far(edits, e, context) && l >= context && r >= context))
    ensures next.None? ==> e == e0 && l == l0 && r == r0
  {
    hide Hunk.Valid, Hunk.Lines, LeftSide, RightSide, Count, Places, Transforms, Far, MatchesEnd, WellFramed, Leading,
      Tallies, Trailing, Longest, RemovedFirst, ContextFits;
    // the first line to include in the hunk
    var prefix := Min(l0, context);
    var hunk := StartHunk(left, l0, r0, prefix);
    e, l, r := FillHunk(hunk, edits, left, right, context, e0, l0, r0, l0 - prefix, r0 - prefix);
    if hunk.HasEdits() {
      var h := hunk.PrintTo();
      IsWellFramed(h, edits, left, right, context, l0, r0, e, l, r);
      next := Some(h);
    } else {
      next := None;
    }
  }

  lemma WrittenToTheEnd(hunks: seq<HunkText>, edits: seq<EditType>, left: seq<string>, right: seq<string>,
                        context: nat, l: nat, r: nat)
    requires Written(hunks, edits, left, right, context, |edits|, l, r)
    ensures if context == 0 then hunks == [] else Complete(hunks, edits, left, right, context)
  {
    NothingLeft(hunks, edits, left, right, |edits|, l, r, l, r);
  }

  /** After the matches are skipped, the context that a hunk repeats has not been
      written yet, and there is as much of it on the right as on the left. */
  lemma ContextBefore(hunks: seq<HunkText>, edits: seq<EditType>, left: seq<string>, right: seq<string>, context: nat,
                      e0: nat, l0: nat, r0: nat, e: nat, l: nat, r: nat)
    requires Written(hunks, edits, left, right, context, e0, l0, r0) && e0 < |edits|
    requires e == MatchesEnd(edits, e0) && l - l0 == r - r0 == e - e0
    requires l <= |left| && r <= |right| && left[l0..l] == right[r0..r]
    ensures var k := Min(l, context);
            && k <= r && (l >= context || l == r)
            && (e < |edits| && context > 0 ==>
                  && l0 <= l - k && r0 <= r - k
                  && left[l0..l - k] == right[r0..r - k] && left[l - k..l] == right[r - k..r])
  {
    if e < |edits| && context > 0 {
      GapShrinks(left, right, l0, r0, l, r, Min(l, context));
    }
  }

  /** One round: skip to the next edit and build the hunk around it, if it has any edits. */
  method NextHunk(ghost hunks: seq<HunkText>, edits: seq<EditType>, left: seq<string>, right: seq<string>,
                  context: nat, e0: nat, l0: nat, r0: nat)
    returns (next: Option<HunkText>, e: nat, l: nat, r: nat)
    requires Written(hunks, edits, left, right, context, e0, l0, r0) && e0 < |edits|
    ensures next.Some? ==> e > e0 && Written(hunks + [next.value], edits, left, right, context, e, l, r)
    ensures next.None? ==> if context == 0 then hunks == [] else Complete(hunks, edits, left, right, context)
  {
    hide Accounts, AllPlaces, WellFramed, At, Window;
    e, l, r := SkipMatches(edits, left, right, e0, l0, r0);
    ghost var e1, l1, r1 := e, l, r;
    ghost var prefix := Min(l, context);
    ContextBefore(hunks, edits, left, right, context, e0, l0, r0, e, l, r);
    next, e, l, r := BuildHunk(edits, left, right, context, e, l, r);
    if next.Some? {
      HunkWritten(hunks, next.value, edits, left, right, e0, l0, r0, e1, l1 - prefix, r1 - prefix, e, l, r);
    } else if context > 0 {
      NothingLeft(hunks, edits, left, right, e0, l0, r0, l, r);
    }
  }

  lemma {:induction false} EachHunkSpans(hunks: seq<HunkText>, left: seq<string>, right: seq<string>, al: nat, ar: nat,
                                         h: HunkText)
    requires Accounts(hunks, left, right, al, ar, |left|, |right|) && h in hunks
    ensures h.leftStart > 0 && h.rightStart > 0
    ensures Spans(h, left, right, h.leftStart - 1, h.rightStart - 1, LeftEnd(h), RightEnd(h))
    decreases |hunks|
  {
    if h != hunks[0] {
      EachHunkSpans(hunks[1..], left, right, LeftEnd(hunks[0]), RightEnd(hunks[0]), h);
    }
  }

  /** The removed and added lines of a hunk hold the texts of the lines with their numbers. */
  lemma HunkLinesAreTheirs(hunks: seq<HunkText>, edits: seq<EditType>, left: seq<string>, right: seq<string>,
                           context: nat, h: HunkText, tag: Tag, k: nat)
    requires Complete(hunks, edits, left, right, context) && h in hunks
    requires tag != Common && k < |Only(h.lines, tag)|
    ensures |HunkPlaces(h, tag)| == |Only(h.lines, tag)|
    ensures var side, n := if tag == Removed then left else right, HunkPlaces(h, tag)[k];
            0 < n <= |side| && Only(h.lines, tag)[k] == side[n - 1]
  {
    EachHunkSpans(hunks, left, right, 0, 0, h);
    PlacesHoldTexts(h.lines, tag, if tag == Removed then h.leftStart else h.rightStart, k);
  }

  /**
    With context, the hunks account for every difference; the lines that they remove
    or add are, by their numbers, those that the edit script removes or adds, each once
    and in order; and each hunk is framed by the context asked for and joins edits that
    are so close that their contexts overlap. There is only one such list of hunks.
    Without context there are no hunks at all.
   */
  method CreateUnifiedDiff(left: seq<string>, right: seq<string>, context: nat) returns (hunks: seq<HunkText>)
    ensures if context == 0 then hunks == [] else Complete(hunks, BestPath(left, right), left, right, context)
    ensures Patch(left, 0, 0, hunks) == Some(right) <==> context > 0 || left == right
    ensures Patch(right, 0, 0, ReverseHunks(hunks)) == Some(left) <==> context > 0 || left == right
  {
    var edits := CalculateOptimalLineEdits(left, right);
    var l: nat, r: nat, e: nat := 0, 0, 0;
    hunks := [];
    assert At(edits, left, right, 0, 0, 0) by {
      assert edits[0..] == edits && left[0..] == left && right[0..] == right;
    }
    assert Written(hunks, edits, left, right, context, e, l, r);
    hide *;
    while e < |edits|
      invariant Written(hunks, edits, left, right, context, e, l, r)
      decreases |edits| - e
    {
      var next;
      next, e, l, r := NextHunk(hunks, edits, left, right, context, e, l, r);
      if next.None? {
        DiffApplies(hunks, edits, left, right, context);
        return;
      }
      hunks := hunks + [next.value];
    }
    WrittenToTheEnd(hunks, edits, left, right, context, l, r);
    DiffApplies(hunks, edits, left, right, context);
  }
}
