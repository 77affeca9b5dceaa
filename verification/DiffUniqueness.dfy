/**
  What is asked of a unified diff determines it: how the changes are grouped into hunks,
  where these start and end, and the order of their lines.
 */
module DiffUniqueness {
  import opened EditScripts
  import opened Hunks
  import opened HunkShapes
  import opened UnifiedDiffWriter

  // ---- lines determined by their sides --------------------------------------------------------

  lemma {:induction false} PlacesFrom(lines: seq<Line>, tag: Tag, at: nat)
    ensures forall p :: p in Places(lines, tag, at) ==> p >= at
    decreases |lines|
  {
    if lines != [] {
      PlacesFrom(lines[1..], tag, if lines[0].tag == ReverseTag(tag) then at else at + 1);
    }
  }

  /** The first line has the first number if it has the tag, and passes it if it is unchanged. */
  lemma FirstPlace(lines: seq<Line>, tag: Tag, at: nat)
    requires lines != [] && tag != Common
    ensures lines[0].tag == tag ==> at in Places(lines, tag, at)
    ensures lines[0].tag == Common ==> at !in Places(lines, tag, at)
    ensures lines[0].tag == ReverseTag(tag) ==> Places(lines, tag, at) == Places(lines[1..], tag, at)
  {
    PlacesFrom(lines[1..], tag, at + 1);
  }

  /** A removed line that comes next on its side is not kept waiting by added ones. */
  lemma {:induction false} RemovedComesNext(lines: seq<Line>, at: nat)
    requires RemovedFirst(lines) && at in Places(lines, Removed, at)
    ensures lines != [] && lines[0].tag == Removed
    decreases |lines|
  {
    FirstPlace(lines, Removed, at);
    if lines[0].tag == Added {
      assert |lines| > 1 ==> lines[1].tag != Removed && lines[1..][0] == lines[1];
      RemovedComesNext(lines[1..], at);
    }
  }

  lemma NextTagIsSame(a: seq<Line>, b: seq<Line>, l: nat, r: nat)
    requires a != [] && b != [] && RemovedFirst(a) && RemovedFirst(b)
    requires Places(a, Removed, l) == Places(b, Removed, l) && Places(a, Added, r) == Places(b, Added, r)
    ensures a[0].tag == b[0].tag
  {
    FirstPlace(a, Removed, l);
    FirstPlace(b, Removed, l);
    FirstPlace(a, Added, r);
    FirstPlace(b, Added, r);
    if l in Places(a, Removed, l) {
      RemovedComesNext(a, l);
      RemovedComesNext(b, l);
    }
  }

  /** How many lines of the left side (tag Removed) or the right side (Added) a line takes. */
  function Takes(line: Line, tag: Tag): nat {
    if line.tag == ReverseTag(tag) then 0 else 1
  }

  lemma WithoutFirst(lines: seq<Line>, tag: Tag, at: nat)
    requires lines != [] && tag != Common
    ensures var side, n := Without(lines, ReverseTag(tag)), Takes(lines[0], tag);
            && n <= |side| && Without(lines[1..], ReverseTag(tag)) == side[n..]
            && (n == 1 ==> side[0] == lines[0].text)
    ensures var places, n := Places(lines, tag, at), if lines[0].tag == tag then 1 else 0;
            n <= |places| && Places(lines[1..], tag, at + Takes(lines[0], tag)) == places[n..]
  {
  }

  /** Lines are determined by both sides and by which lines of them are changed. */
  lemma {:induction false} LinesAreDetermined(a: seq<Line>, b: seq<Line>, l: nat, r: nat)
    requires RemovedFirst(a) && RemovedFirst(b)
    requires LeftSide(a) == LeftSide(b) && RightSide(a) == RightSide(b)
    requires Places(a, Removed, l) == Places(b, Removed, l) && Places(a, Added, r) == Places(b, Added, r)
    ensures a == b
    decreases |a|
  {
    if a == [] || b == [] {
      return;
    }
    NextTagIsSame(a, b, l, r);
    WithoutFirst(a, Removed, l);
    WithoutFirst(b, Removed, l);
    WithoutFirst(a, Added, r);
    WithoutFirst(b, Added, r);
    hide Without, Places;
    LinesAreDetermined(a[1..], b[1..], l + Takes(a[0], Removed), r + Takes(a[0], Added));
    assert a == [a[0]] + a[1..] && b == [b[0]] + b[1..];
  }

  // ---- a diff without gaps ----------------------------------------------------------------------

  function Unchanged(texts: seq<string>): (lines: seq<Line>)
    ensures |lines| == |texts| && AllTagged(lines, Common)
  {
    seq(|texts|, i requires 0 <= i < |texts| => Line(Common, texts[i]))
  }

  lemma {:induction false} UnchangedLines(texts: seq<string>, tag: Tag, at: nat)
    requires tag != Common
    ensures Without(Unchanged(texts), tag) == texts && Places(Unchanged(texts), tag, at) == []
    ensures Leading(Unchanged(texts)) == |texts| && RemovedFirst(Unchanged(texts))
    decreases |texts|
  {
    if texts != [] {
      assert Unchanged(texts)[1..] == Unchanged(texts[1..]);
      UnchangedLines(texts[1..], tag, at + 1);
    }
  }

  /** All lines from positions al and ar on: those of the hunks and those between them. */
  ghost function Unfolded(hunks: seq<HunkText>, left: seq<string>, right: seq<string>, al: nat, ar: nat): seq<Line>
    requires Accounts(hunks, left, right, al, ar, |left|, |right|)
    decreases |hunks|
  {
    if hunks == [] then Unchanged(left[al..])
    else
      var h := hunks[0];
      Unchanged(left[al..h.leftStart - 1]) + h.lines + Unfolded(hunks[1..], left, right, LeftEnd(h), RightEnd(h))
  }

  /** Where the first hunk stands and what comes after it. */
  lemma FirstHunk(hunks: seq<HunkText>, left: seq<string>, right: seq<string>, al: nat, ar: nat)
    requires hunks != [] && Accounts(hunks, left, right, al, ar, |left|, |right|)
    ensures var h := hunks[0];
            && al < h.leftStart <= LeftEnd(h) + 1 <= |left| + 1
            && ar < h.rightStart <= RightEnd(h) + 1 <= |right| + 1
            && h.leftStart - al == h.rightStart - ar
            && left[al..h.leftStart - 1] == right[ar..h.rightStart - 1]
            && LeftSide(h.lines) == left[h.leftStart - 1..LeftEnd(h)]
            && RightSide(h.lines) == right[h.rightStart - 1..RightEnd(h)]
            && Accounts(hunks[1..], left, right, LeftEnd(h), RightEnd(h), |left|, |right|)
            && Unfolded(hunks, left, right, al, ar) ==
               Unchanged(left[al..h.leftStart - 1]) + h.lines +
               Unfolded(hunks[1..], left, right, LeftEnd(h), RightEnd(h))
  {
    var h := hunks[0];
    hide LeftSide, RightSide;
    assert |left[al..h.leftStart - 1]| == |right[ar..h.rightStart - 1]|;
  }

  lemma SidesOfThree(a: seq<Line>, b: seq<Line>, c: seq<Line>, tag: Tag)
    ensures Without(a + b + c, tag) == Without(a, tag) + Without(b, tag) + Without(c, tag)
  {
    SidesOfConcat(a, b, tag);
    SidesOfConcat(a + b, c, tag);
  }

  lemma PlacesOfThree(a: seq<Line>, b: seq<Line>, c: seq<Line>, tag: Tag, at: nat)
    requires tag != Common
    ensures var next := at + |Without(a, ReverseTag(tag))|;
            Places(a + b + c, tag, at) ==
            Places(a, tag, at) + Places(b, tag, next) + Places(c, tag, next + |Without(b, ReverseTag(tag))|)
  {
    PlacesOfConcat(a, b, tag, at);
    SidesOfConcat(a, b, ReverseTag(tag));
    PlacesOfConcat(a + b, c, tag, at);
  }

  /** One side of the lines before a hunk, of the hunk, and of the rest. */
  lemma SideFromParts(side: seq<string>, a: nat, b: nat, c: nat, gap: seq<string>, lines: seq<Line>, rest: seq<Line>,
                      tag: Tag)
    requires a <= b <= c <= |side| && tag != Common
    requires gap == side[a..b] && Without(lines, tag) == side[b..c] && Without(rest, tag) == side[c..]
    ensures Without(Unchanged(gap) + lines + rest, tag) == side[a..]
  {
    hide Without;
    UnchangedLines(gap, tag, 0);
    SidesOfThree(Unchanged(gap), lines, rest, tag);
  }

  /** The same for the line numbers. */
  lemma PlacesFromParts(gap: seq<string>, h: HunkText, rest: seq<Line>, tag: Tag, at: nat)
    requires tag != Common && at + |gap| == if tag == Removed then h.leftStart else h.rightStart
    ensures Places(Unchanged(gap) + h.lines + rest, tag, at) ==
            HunkPlaces(h, tag) + Places(rest, tag, at + |gap| + |Without(h.lines, ReverseTag(tag))|)
  {
    hide Without, Places;
    UnchangedLines(gap, tag, at);
    UnchangedLines(gap, ReverseTag(tag), at);
    PlacesOfThree(Unchanged(gap), h.lines, rest, tag, at);
  }

  lemma {:induction false} UnfoldedSides(hunks: seq<HunkText>, left: seq<string>, right: seq<string>, al: nat, ar: nat)
    requires Accounts(hunks, left, right, al, ar, |left|, |right|)
    ensures LeftSide(Unfolded(hunks, left, right, al, ar)) == left[al..]
    ensures RightSide(Unfolded(hunks, left, right, al, ar)) == right[ar..]
    decreases |hunks|
  {
    if hunks == [] {
      assert left[al..|left|] == left[al..] && right[ar..|right|] == right[ar..];
      hide Without;
      UnchangedLines(left[al..], Added, 0);
      UnchangedLines(left[al..], Removed, 0);
      return;
    }
    hide Without, Accounts, Unfolded;
    FirstHunk(hunks, left, right, al, ar);
    var h := hunks[0];
    var gap, rest := left[al..h.leftStart - 1], Unfolded(hunks[1..], left, right, LeftEnd(h), RightEnd(h));
    UnfoldedSides(hunks[1..], left, right, LeftEnd(h), RightEnd(h));
    SideFromParts(left, al, h.leftStart - 1, LeftEnd(h), gap, h.lines, rest, Added);
    SideFromParts(right, ar, h.rightStart - 1, RightEnd(h), gap, h.lines, rest, Removed);
  }

  lemma {:induction false} PlacesFromTheFirst(hunks: seq<HunkText>, tag: Tag)
    requires hunks != []
    ensures AllPlaces(hunks, tag) == HunkPlaces(hunks[0], tag) + AllPlaces(hunks[1..], tag)
    decreases |hunks|
  {
    if |hunks| == 1 {
      assert Init(hunks) == [] && hunks[1..] == [];
    } else {
      PlacesFromTheFirst(Init(hunks), tag);
      assert Init(hunks)[1..] == Init(hunks[1..]) && Last(hunks[1..]) == Last(hunks);
    }
  }

  lemma {:induction false} UnfoldedPlaces(hunks: seq<HunkText>, left: seq<string>, right: seq<string>, al: nat, ar: nat,
                                          tag: Tag)
    requires Accounts(hunks, left, right, al, ar, |left|, |right|) && tag != Common
    ensures Places(Unfolded(hunks, left, right, al, ar), tag, if tag == Removed then al + 1 else ar + 1) ==
            AllPlaces(hunks, tag)
    decreases |hunks|
  {
    if hunks == [] {
      UnchangedLines(left[al..], tag, if tag == Removed then al + 1 else ar + 1);
      return;
    }
    hide Without, Places, Accounts, AllPlaces, Unfolded;
    FirstHunk(hunks, left, right, al, ar);
    var h := hunks[0];
    var at := if tag == Removed then al + 1 else ar + 1;
    var gap, rest := left[al..h.leftStart - 1], Unfolded(hunks[1..], left, right, LeftEnd(h), RightEnd(h));
    UnfoldedPlaces(hunks[1..], left, right, LeftEnd(h), RightEnd(h), tag);
    PlacesFromTheFirst(hunks, tag);
    PlacesFromParts(gap, h, rest, tag, at);
  }

  // ---- the order of all lines -------------------------------------------------------------------

  ghost predicate AllFramed(hunks: seq<HunkText>, left: seq<string>, right: seq<string>, context: nat) {
    forall h :: h in hunks ==> WellFramed(h, left, right, context)
  }

  lemma FirstFramed(hunks: seq<HunkText>, left: seq<string>, right: seq<string>, context: nat)
    requires hunks != [] && AllFramed(hunks, left, right, context)
    ensures WellFramed(hunks[0], left, right, context) && AllFramed(hunks[1..], left, right, context)
  {
    assert hunks[0] in hunks;
  }

  lemma NoLines(lines: seq<Line>)
    requires LeftSide(lines) == [] && RightSide(lines) == []
    ensures lines == []
  {
  }

  /** Lines after a hunk mean that it ends in its full context. */
  lemma EndsOrGoesOn(hunks: seq<HunkText>, left: seq<string>, right: seq<string>, al: nat, ar: nat, context: nat)
    requires Accounts(hunks, left, right, al, ar, |left|, |right|)
    requires hunks != [] && WellFramed(hunks[0], left, right, context)
    requires Unfolded(hunks[1..], left, right, LeftEnd(hunks[0]), RightEnd(hunks[0])) != []
    ensures Trailing(hunks[0].lines) == context
  {
    var h := hunks[0];
    var rest := Unfolded(hunks[1..], left, right, LeftEnd(h), RightEnd(h));
    hide Without, Unfolded, Leading, Trailing, Longest, RemovedFirst, Count;
    if LeftEnd(h) == |left| && RightEnd(h) == |right| {
      UnfoldedSides(hunks[1..], left, right, LeftEnd(h), RightEnd(h));
      NoLines(rest);
    }
  }

  lemma ConcatInOrder(a: seq<Line>, b: seq<Line>)
    requires RemovedFirst(a) && RemovedFirst(b) && (a == [] || b == [] || Last(a).tag == Common)
    ensures RemovedFirst(a + b)
  {
  }

  lemma {:induction false} UnfoldedInOrder(hunks: seq<HunkText>, left: seq<string>, right: seq<string>,
                                           al: nat, ar: nat, context: nat)
    requires Accounts(hunks, left, right, al, ar, |left|, |right|) && AllFramed(hunks, left, right, context)
    requires context > 0
    ensures RemovedFirst(Unfolded(hunks, left, right, al, ar))
    decreases |hunks|
  {
    if hunks == [] {
      return;
    }
    hide Accounts, Unfolded, AllFramed, RemovedFirst, Leading, Longest, Without, Count;
    FirstHunk(hunks, left, right, al, ar);
    FirstFramed(hunks, left, right, context);
    var h := hunks[0];
    var gap, rest := left[al..h.leftStart - 1], Unfolded(hunks[1..], left, right, LeftEnd(h), RightEnd(h));
    UnfoldedInOrder(hunks[1..], left, right, LeftEnd(h), RightEnd(h), context);
    if rest != [] {
      EndsOrGoesOn(hunks, left, right, al, ar, context);
    }
    UnchangedLines(gap, Added, 0);
    ConcatInOrder(Unchanged(gap), h.lines);
    ConcatInOrder(Unchanged(gap) + h.lines, rest);
  }

  // ---- the hunks ----------------------------------------------------------------------------------

  lemma {:induction false} TrailingOfConcat(a: seq<Line>, b: seq<Line>)
    requires AllTagged(b, Common)
    ensures Trailing(a + b) == Trailing(a) + |b|
    decreases |b|
  {
    if b == [] {
      assert a + b == a;
    } else {
      assert Init(a + b) == a + Init(b) && Last(a + b) == Last(b);
      TrailingOfConcat(a, Init(b));
    }
  }

  lemma {:induction false} LongestOfPrefix(a: seq<Line>, b: seq<Line>)
    ensures Longest(a) <= Longest(a + b)
    decreases |b|
  {
    if b == [] {
      assert a + b == a;
    } else {
      assert Init(a + b) == a + Init(b);
      LongestOfPrefix(a, Init(b));
    }
  }

  lemma {:induction false} LeadingMeans(lines: seq<Line>)
    ensures AllTagged(lines[..Leading(lines)], Common)
    ensures Leading(lines) < |lines| ==> lines[Leading(lines)].tag != Common
  {
    if lines != [] && lines[0].tag == Common {
      LeadingMeans(lines[1..]);
      assert lines[..Leading(lines)] == [lines[0]] + lines[1..][..Leading(lines[1..])];
    }
  }

  /** How far the first change is from where a hunk may start. */
  lemma LeadingOfUnfolded(hunks: seq<HunkText>, left: seq<string>, right: seq<string>, al: nat, ar: nat, context: nat)
    requires Accounts(hunks, left, right, al, ar, |left|, |right|) && AllFramed(hunks, left, right, context)
    ensures var lines := Unfolded(hunks, left, right, al, ar);
            if hunks == [] then Leading(lines) == |lines|
            else Leading(lines) == hunks[0].leftStart - 1 - al + Leading(hunks[0].lines) < |lines|
  {
    if hunks == [] {
      UnchangedLines(left[al..], Added, 0);
      return;
    }
    hide Accounts, Unfolded, AllFramed, Leading, Trailing, Longest, RemovedFirst, Without, Count;
    FirstHunk(hunks, left, right, al, ar);
    FirstFramed(hunks, left, right, context);
    var h := hunks[0];
    var gap, rest := left[al..h.leftStart - 1], Unfolded(hunks[1..], left, right, LeftEnd(h), RightEnd(h));
    UnchangedLines(gap, Added, 0);
    LeadingOfConcat(h.lines, rest);
    LeadingOfConcat(Unchanged(gap), h.lines + rest);
    assert Unchanged(gap) + h.lines + rest == Unchanged(gap) + (h.lines + rest);
  }

  /** After a hunk there are only unchanged lines or at least as many as the context. */
  lemma LeadingAfterHunk(hunks: seq<HunkText>, left: seq<string>, right: seq<string>, al: nat, ar: nat, context: nat)
    requires Accounts(hunks, left, right, al, ar, |left|, |right|) && AllFramed(hunks, left, right, context)
    requires al > 0 || ar > 0
    ensures var lines := Unfolded(hunks, left, right, al, ar);
            Leading(lines) == |lines| || Leading(lines) >= context
  {
    LeadingOfUnfolded(hunks, left, right, al, ar, context);
    if hunks != [] {
      hide Accounts, Unfolded, AllFramed, Leading, Trailing, Longest, RemovedFirst, Without, Count;
      FirstHunk(hunks, left, right, al, ar);
      FirstFramed(hunks, left, right, context);
    }
  }

  /** Lines that run on from a full context into a change have a run as long as two contexts,
      and others end in more than the context. */
  lemma TooMuchContext(a: seq<Line>, more: seq<Line>, after: seq<Line>, context: nat)
    requires Trailing(a) == context && more != []
    requires Leading(more + after) == |more + after| || Leading(more + after) >= context
    ensures Trailing(a + more) > context || Longest(a + more) >= 2 * context
  {
    LeadingOfConcat(more, after);
    LeadingMeans(more);
    hide Leading, Trailing, Longest, AllTagged, Count;
    var k := Leading(more);
    TrailingOfConcat(a, more[..k]);
    assert a + more == (a + more[..k]) + more[k..];
    LongestOfPrefix(a + more[..k], more[k..]);
    if k == |more| {
      assert more[..k] == more;
    }
  }

  /** Of two hunks that start alike neither goes on longer than the other. */
  lemma NotLonger(hunks: seq<HunkText>, left: seq<string>, right: seq<string>, al: nat, ar: nat, context: nat,
                  h': HunkText, rest': seq<Line>)
    requires Accounts(hunks, left, right, al, ar, |left|, |right|) && AllFramed(hunks, left, right, context)
    requires hunks != [] && WellFramed(h', left, right, context)
    requires var h := hunks[0];
             h.lines + Unfolded(hunks[1..], left, right, LeftEnd(h), RightEnd(h)) == h'.lines + rest'
    ensures |h'.lines| <= |hunks[0].lines|
  {
    var h := hunks[0];
    var rest := Unfolded(hunks[1..], left, right, LeftEnd(h), RightEnd(h));
    hide Accounts, Unfolded, AllFramed, Leading, Trailing, Longest, RemovedFirst, Without, Count;
    FirstHunk(hunks, left, right, al, ar);
    FirstFramed(hunks, left, right, context);
    if |h'.lines| > |h.lines| {
      var more := Overhang(h.lines, rest, h'.lines, rest');
      EndsOrGoesOn(hunks, left, right, al, ar, context);
      HunkEndsLater(h, left, right, context);
      LeadingAfterHunk(hunks[1..], left, right, LeftEnd(h), RightEnd(h), context);
      TooMuchContext(h.lines, more, rest', context);
    }
  }

  lemma Overhang<T>(a: seq<T>, b: seq<T>, c: seq<T>, d: seq<T>) returns (more: seq<T>)
    requires a + b == c + d && |a| < |c|
    ensures more != [] && c == a + more && b == more + d
  {
    more := c[|a|..];
    assert c == (c + d)[..|c|] == (a + b)[..|c|] && b == (a + b)[|a|..];
  }

  lemma HunkEndsLater(h: HunkText, left: seq<string>, right: seq<string>, context: nat)
    requires WellFramed(h, left, right, context) && h.leftStart > 0 && h.rightStart > 0
    requires LeftEnd(h) <= |left| && RightEnd(h) <= |right|
    requires LeftSide(h.lines) == left[h.leftStart - 1..LeftEnd(h)]
    requires RightSide(h.lines) == right[h.rightStart - 1..RightEnd(h)]
    ensures LeftEnd(h) > 0 || RightEnd(h) > 0
  {
    SideLengths(h.lines);
  }

  /** There is one way only to cut all lines into hunks. */
  lemma {:induction false} HunksAreDetermined(hunks: seq<HunkText>, hunks': seq<HunkText>, left: seq<string>,
                                              right: seq<string>, al: nat, ar: nat, context: nat)
    requires Accounts(hunks, left, right, al, ar, |left|, |right|) && AllFramed(hunks, left, right, context)
    requires Accounts(hunks', left, right, al, ar, |left|, |right|) && AllFramed(hunks', left, right, context)
    requires Unfolded(hunks, left, right, al, ar) == Unfolded(hunks', left, right, al, ar)
    ensures hunks == hunks'
    decreases |hunks|
  {
    LeadingOfUnfolded(hunks, left, right, al, ar, context);
    LeadingOfUnfolded(hunks', left, right, al, ar, context);
    if hunks == [] || hunks' == [] {
      return;
    }
    hide Accounts, Unfolded, AllFramed, Leading, Trailing, Longest, RemovedFirst, Without, Count;
    FirstHunk(hunks, left, right, al, ar);
    FirstHunk(hunks', left, right, al, ar);
    FirstFramed(hunks, left, right, context);
    FirstFramed(hunks', left, right, context);
    var h, h' := hunks[0], hunks'[0];
    assert h.leftStart == h'.leftStart && h.rightStart == h'.rightStart;
    var gap := left[al..h.leftStart - 1];
    var rest := Unfolded(hunks[1..], left, right, LeftEnd(h), RightEnd(h));
    var rest' := Unfolded(hunks'[1..], left, right, LeftEnd(h'), RightEnd(h'));
    SameTails(Unchanged(gap), h.lines, rest, h'.lines, rest');
    NotLonger(hunks, left, right, al, ar, context, h', rest');
    NotLonger(hunks', left, right, al, ar, context, h, rest);
    SameParts(h.lines, rest, h'.lines, rest');
    assert h == h';
    HunksAreDetermined(hunks[1..], hunks'[1..], left, right, LeftEnd(h), RightEnd(h), context);
    assert hunks == [h] + hunks[1..] && hunks' == [h'] + hunks'[1..];
  }

  lemma SameTails(gap: seq<Line>, a: seq<Line>, b: seq<Line>, c: seq<Line>, d: seq<Line>)
    requires gap + a + b == gap + c + d
    ensures a + b == c + d
  {
    assert a + b == (gap + a + b)[|gap|..] && c + d == (gap + c + d)[|gap|..];
  }

  lemma SameParts(a: seq<Line>, b: seq<Line>, c: seq<Line>, d: seq<Line>)
    requires a + b == c + d && |a| == |c|
    ensures a == c && b == d
  {
    assert a == (a + b)[..|a|] && c == (c + d)[..|a|] && b == (a + b)[|a|..] && d == (c + d)[|a|..];
  }

  /** Whatever the script, at most one list of hunks is a complete diff of it. */
  lemma OneDiffOnly(hunks: seq<HunkText>, hunks': seq<HunkText>, edits: seq<EditType>, left: seq<string>,
                    right: seq<string>, context: nat)
    requires context > 0
    requires Complete(hunks, edits, left, right, context) && Complete(hunks', edits, left, right, context)
    ensures hunks == hunks'
  {
    hide Accounts, AllPlaces, Called, WellFramed, Unfolded, LeftSide, RightSide, RemovedFirst, Places;
    UnfoldedSides(hunks, left, right, 0, 0);
    UnfoldedSides(hunks', left, right, 0, 0);
    UnfoldedPlaces(hunks, left, right, 0, 0, Removed);
    UnfoldedPlaces(hunks', left, right, 0, 0, Removed);
    UnfoldedPlaces(hunks, left, right, 0, 0, Added);
    UnfoldedPlaces(hunks', left, right, 0, 0, Added);
    UnfoldedInOrder(hunks, left, right, 0, 0, context);
    UnfoldedInOrder(hunks', left, right, 0, 0, context);
    LinesAreDetermined(Unfolded(hunks, left, right, 0, 0), Unfolded(hunks', left, right, 0, 0), 1, 1);
    HunksAreDetermined(hunks, hunks', left, right, 0, 0, context);
  }
}
