/**
  Unified diffs as data: numbered hunks of tagged lines, and what it means to
  apply them.
 */
module Hunks {
  import opened SharedTypes

  datatype Tag = Common | Removed | Added

  datatype Line = Line(tag: Tag, text: string)

  /** One hunk as printed: the four header numbers (1-based starts) and the body. */
  datatype HunkText = HunkText(leftStart: nat, leftLength: nat, rightStart: nat, rightLength: nat, lines: seq<Line>)

  /** The texts of all lines but those with the given tag. */
  function Without(lines: seq<Line>, tag: Tag): seq<string> {
    if lines == [] then []
    else (if lines[0].tag == tag then [] else [lines[0].text]) + Without(lines[1..], tag)
  }

  function LeftSide(lines: seq<Line>): seq<string> {
    Without(lines, Added)
  }

  function RightSide(lines: seq<Line>): seq<string> {
    Without(lines, Removed)
  }

  function Count(lines: seq<Line>, tag: Tag): nat {
    if lines == [] then 0 else (if lines[0].tag == tag then 1 else 0) + Count(lines[1..], tag)
  }

  lemma {:induction false} SidesOfConcat(a: seq<Line>, b: seq<Line>, tag: Tag)
    ensures Without(a + b, tag) == Without(a, tag) + Without(b, tag)
    ensures Count(a + b, tag) == Count(a, tag) + Count(b, tag)
  {
    if a == [] {
      assert a + b == b;
    } else {
      assert (a + b)[0] == a[0] && (a + b)[1..] == a[1..] + b;
      SidesOfConcat(a[1..], b, tag);
      var head := if a[0].tag == tag then [] else [a[0].text];
      assert Without(a + b, tag) == head + Without(a[1..] + b, tag);
    }
  }

  lemma {:induction false} SideLengths(lines: seq<Line>)
    ensures |LeftSide(lines)| == Count(lines, Common) + Count(lines, Removed)
    ensures |RightSide(lines)| == Count(lines, Common) + Count(lines, Added)
  {
    if lines != [] {
      SideLengths(lines[1..]);
    }
  }

  function ReverseTag(tag: Tag): Tag {
    match tag
    case Common => Common
    case Removed => Added
    case Added => Removed
  }

  /** The line numbers of the removed lines on the left, or of the added lines on the
      right, if the first line of that side has the number `at`. */
  function Places(lines: seq<Line>, tag: Tag, at: nat): (places: seq<nat>) {
    if lines == [] then []
    else
      (if lines[0].tag == tag then [at] else []) +
      Places(lines[1..], tag, if lines[0].tag == ReverseTag(tag) then at else at + 1)
  }

  lemma {:induction false} PlacesOfConcat(a: seq<Line>, b: seq<Line>, tag: Tag, at: nat)
    requires tag != Common
    ensures Places(a + b, tag, at) == Places(a, tag, at) + Places(b, tag, at + |Without(a, ReverseTag(tag))|)
    decreases |a|
  {
    if a == [] {
      assert a + b == b;
    } else {
      assert (a + b)[0] == a[0] && (a + b)[1..] == a[1..] + b;
      PlacesOfConcat(a[1..], b, tag, if a[0].tag == ReverseTag(tag) then at else at + 1);
    }
  }

  /** The k-th line with the tag holds the text that its side has at its place. */
  ghost predicate HoldsText(side: seq<string>, places: seq<nat>, texts: seq<string>, at: nat, k: nat) {
    k < |places| == |texts| && 0 <= places[k] - at < |side| && texts[k] == side[places[k] - at]
  }

  lemma {:induction false} PlacesHoldTexts(lines: seq<Line>, tag: Tag, at: nat, k: nat)
    requires tag != Common && k < Count(lines, tag)
    ensures HoldsText(Without(lines, ReverseTag(tag)), Places(lines, tag, at), Only(lines, tag), at, k)
    decreases |lines|
  {
    PlacesAreCounted(lines, tag, at);
    if lines[0].tag == tag {
      if k > 0 {
        PlacesHoldTexts(lines[1..], tag, at + 1, k - 1);
      }
    } else if lines[0].tag == ReverseTag(tag) {
      PlacesHoldTexts(lines[1..], tag, at, k);
    } else {
      PlacesHoldTexts(lines[1..], tag, at + 1, k);
    }
  }

  lemma {:induction false} PlacesAreCounted(lines: seq<Line>, tag: Tag, at: nat)
    ensures |Places(lines, tag, at)| == Count(lines, tag)
    decreases |lines|
  {
    if lines != [] {
      PlacesAreCounted(lines[1..], tag, if lines[0].tag == ReverseTag(tag) then at else at + 1);
    }
  }

  /** The texts of the lines with the tag. */
  function Only(lines: seq<Line>, tag: Tag): (texts: seq<string>)
    ensures |texts| == Count(lines, tag)
  {
    if lines == [] then [] else (if lines[0].tag == tag then [lines[0].text] else []) + Only(lines[1..], tag)
  }

  ghost predicate AllTagged(lines: seq<Line>, tag: Tag) {
    forall i :: 0 <= i < |lines| ==> lines[i].tag == tag
  }

  lemma {:induction false} SidesOfTagged(lines: seq<Line>, tag: Tag)
    requires AllTagged(lines, tag)
    ensures Without(lines, tag) == []
    ensures Count(lines, tag) == |lines|
    ensures forall other :: other != tag ==> Count(lines, other) == 0
  {
    if lines != [] {
      SidesOfTagged(lines[1..], tag);
    }
  }

  lemma {:induction false} NoPlaces(lines: seq<Line>, tag: Tag, at: nat)
    requires AllTagged(lines, ReverseTag(tag)) && tag != Common
    ensures Places(lines, tag, at) == []
    decreases |lines|
  {
    if lines != [] {
      NoPlaces(lines[1..], tag, at);
    }
  }

  // ---- applying ---------------------------------------------------------------------

  /** Runs a hunk body over the old lines: common and removed lines must be there.
      Yields the new lines and the number of old lines used up. */
  function ApplyBody(lines: seq<Line>, old_: seq<string>): Option<(seq<string>, nat)> {
    if lines == [] then Some(([], 0))
    else
      var line := lines[0];
      if line.tag.Added? then
        match ApplyBody(lines[1..], old_)
        case None => None
        case Some((out, used)) => Some(([line.text] + out, used))
      else if old_ == [] || old_[0] != line.text then None
      else
        match ApplyBody(lines[1..], old_[1..])
        case None => None
        case Some((out, used)) => Some(((if line.tag.Common? then [line.text] else []) + out, used + 1))
  }

  /** Applies hunks in order to the lines from `pos` on, where `outPos` new lines
      have been produced already. Every header number must be right. */
  function Patch(old_: seq<string>, pos: nat, outPos: nat, hunks: seq<HunkText>): Option<seq<string>>
    decreases |hunks|
  {
    if pos > |old_| then None
    else if hunks == [] then Some(old_[pos..])
    else
      var h := hunks[0];
      if h.leftStart <= pos || h.leftStart - 1 > |old_| then None
      else if h.rightStart - 1 != outPos + (h.leftStart - 1 - pos) then None
      else
        match ApplyBody(h.lines, old_[h.leftStart - 1..])
        case None => None
        case Some((out, used)) =>
          if used != h.leftLength || |out| != h.rightLength then None
          else
            match Patch(old_, h.leftStart - 1 + used, h.rightStart - 1 + |out|, hunks[1..])
            case None => None
            case Some(rest) => Some(old_[pos..h.leftStart - 1] + out + rest)
  }

  /** A diff that applies has right header numbers, and its hunks in order. */
  lemma PatchChecksHeaders(old_: seq<string>, pos: nat, outPos: nat, hunks: seq<HunkText>)
    requires hunks != [] && Patch(old_, pos, outPos, hunks).Some?
    ensures var h := hunks[0];
            && pos < h.leftStart <= |old_| + 1 && h.rightStart - outPos == h.leftStart - pos
            && ApplyBody(h.lines, old_[h.leftStart - 1..]).Some?
            && var (out, used) := ApplyBody(h.lines, old_[h.leftStart - 1..]).value;
               used == h.leftLength && |out| == h.rightLength
  {
  }

  function ReverseLines(lines: seq<Line>): (r: seq<Line>)
    ensures |r| == |lines|
  {
    seq(|lines|, i requires 0 <= i < |lines| => Line(ReverseTag(lines[i].tag), lines[i].text))
  }

  function ReverseHunk(h: HunkText): HunkText {
    HunkText(h.rightStart, h.rightLength, h.leftStart, h.leftLength, ReverseLines(h.lines))
  }

  function ReverseHunks(hunks: seq<HunkText>): (r: seq<HunkText>)
    ensures |r| == |hunks|
  {
    seq(|hunks|, i requires 0 <= i < |hunks| => ReverseHunk(hunks[i]))
  }

  // ---- hunks that describe a difference ------------------------------------------------

  /** The hunk spans lines bl..cl of left and br..cr of right, and says so. */
  ghost predicate Spans(h: HunkText, left: seq<string>, right: seq<string>, bl: nat, br: nat, cl: nat, cr: nat) {
    && bl <= cl <= |left| && br <= cr <= |right|
    && h.leftStart == bl + 1 && h.leftLength == cl - bl
    && h.rightStart == br + 1 && h.rightLength == cr - br
    && LeftSide(h.lines) == left[bl..cl]
    && RightSide(h.lines) == right[br..cr]
  }

  ghost function LeftEnd(h: HunkText): int {
    h.leftStart - 1 + h.leftLength
  }

  ghost function RightEnd(h: HunkText): int {
    h.rightStart - 1 + h.rightLength
  }

  /** The hunk comes after positions al and ar, and all lines before it are equal. */
  ghost predicate Follows(h: HunkText, left: seq<string>, right: seq<string>, al: nat, ar: nat) {
    && al < h.leftStart && ar < h.rightStart
    && LeftEnd(h) <= |left| && RightEnd(h) <= |right|
    && left[al..h.leftStart - 1] == right[ar..h.rightStart - 1]
    && Spans(h, left, right, h.leftStart - 1, h.rightStart - 1, LeftEnd(h), RightEnd(h))
  }

  /** The hunks, in order and without overlap, account for every difference between
      left from al on and right from ar on, up to positions bl and br. */
  ghost predicate Accounts(hunks: seq<HunkText>, left: seq<string>, right: seq<string>, al: nat, ar: nat, bl: nat,
                        br: nat)
    decreases |hunks|
  {
    if hunks == [] then al <= bl <= |left| && ar <= br <= |right| && left[al..bl] == right[ar..br]
    else
      var h := hunks[0];
      && Follows(h, left, right, al, ar)
      && Accounts(hunks[1..], left, right, LeftEnd(h), RightEnd(h), bl, br)
  }

  lemma {:induction false} AccountsForMore(hunks: seq<HunkText>, left: seq<string>, right: seq<string>,
                                           al: nat, ar: nat, bl: nat, br: nat, cl: nat, cr: nat)
    requires Accounts(hunks, left, right, al, ar, bl, br)
    requires bl <= cl <= |left| && br <= cr <= |right| && left[bl..cl] == right[br..cr]
    ensures Accounts(hunks, left, right, al, ar, cl, cr)
    decreases |hunks|
  {
    if hunks == [] {
      assert left[al..cl] == left[al..bl] + left[bl..cl];
      assert right[ar..cr] == right[ar..br] + right[br..cr];
    } else {
      AccountsForMore(hunks[1..], left, right, LeftEnd(hunks[0]), RightEnd(hunks[0]), bl, br, cl, cr);
    }
  }

  lemma {:induction false} AccountsAppend(hunks: seq<HunkText>, left: seq<string>, right: seq<string>,
                                          al: nat, ar: nat, bl: nat, br: nat, h: HunkText, cl: nat, cr: nat)
    requires Accounts(hunks, left, right, al, ar, bl, br)
    requires Spans(h, left, right, bl, br, cl, cr)
    ensures Accounts(hunks + [h], left, right, al, ar, cl, cr)
    decreases |hunks|
  {
    if hunks == [] {
      assert (hunks + [h])[1..] == [];
      assert left[cl..cl] == right[cr..cr];
    } else {
      assert (hunks + [h])[1..] == hunks[1..] + [h];
      AccountsAppend(hunks[1..], left, right, LeftEnd(hunks[0]), RightEnd(hunks[0]), bl, br, h, cl, cr);
    }
  }

  lemma {:induction false} BodyApplies(lines: seq<Line>, old_: seq<string>)
    requires LeftSide(lines) <= old_
    ensures ApplyBody(lines, old_) == Some((RightSide(lines), |LeftSide(lines)|))
    decreases |lines|
  {
    if lines != [] {
      var line := lines[0];
      if line.tag.Added? {
        assert LeftSide(lines) == LeftSide(lines[1..]);
        BodyApplies(lines[1..], old_);
      } else {
        assert LeftSide(lines) == [line.text] + LeftSide(lines[1..]);
        assert LeftSide(lines[1..]) == LeftSide(lines)[1..] <= old_[1..];
        BodyApplies(lines[1..], old_[1..]);
      }
    }
  }

  lemma PatchStep(hunks: seq<HunkText>, left: seq<string>, right: seq<string>, al: nat, ar: nat)
    requires hunks != [] && al <= |left| && ar <= |right| && Follows(hunks[0], left, right, al, ar)
    requires var h := hunks[0];
             && ApplyBody(h.lines, left[h.leftStart - 1..]) ==
               Some((right[h.rightStart - 1..RightEnd(h)], h.leftLength))
             && Patch(left, LeftEnd(h), RightEnd(h), hunks[1..]) == Some(right[RightEnd(h)..])
    ensures var h := hunks[0];
            Patch(left, al, ar, hunks) ==
            Some(left[al..h.leftStart - 1] + right[h.rightStart - 1..RightEnd(h)] + right[RightEnd(h)..])
  {
    hide ApplyBody, LeftSide, RightSide;
    assert |left[al..hunks[0].leftStart - 1]| == |right[ar..hunks[0].rightStart - 1]|;
  }

  /** Hunks that account for all differences turn left into right. */
  lemma {:induction false} AccountsMeansPatch(hunks: seq<HunkText>, left: seq<string>, right: seq<string>, al: nat,
                        ar: nat)
    requires al <= |left| && ar <= |right|
    requires Accounts(hunks, left, right, al, ar, |left|, |right|)
    ensures Patch(left, al, ar, hunks) == Some(right[ar..])
    decreases |hunks|
  {
    if hunks == [] {
      assert left[al..|left|] == left[al..] && right[ar..|right|] == right[ar..];
      return;
    }
    var h := hunks[0];
    HunkApplies(h, left, right, al, ar);
    hide ApplyBody, Patch, Accounts, Spans;
    AccountsMeansPatch(hunks[1..], left, right, LeftEnd(h), RightEnd(h));
    PatchStep(hunks, left, right, al, ar);
  }

  lemma HunkApplies(h: HunkText, left: seq<string>, right: seq<string>, al: nat, ar: nat)
    requires al <= |left| && ar <= |right| && Follows(h, left, right, al, ar)
    ensures ApplyBody(h.lines, left[h.leftStart - 1..]) == Some((right[h.rightStart - 1..RightEnd(h)], h.leftLength))
    ensures left[al..h.leftStart - 1] + right[h.rightStart - 1..RightEnd(h)] + right[RightEnd(h)..] == right[ar..]
  {
    var bl, br, cl, cr := h.leftStart - 1, h.rightStart - 1, LeftEnd(h), RightEnd(h);
    assert left[bl..cl] <= left[bl..];
    BodyApplies(h.lines, left[bl..]);
    hide ApplyBody, LeftSide, RightSide;
    assert right[ar..br] + right[br..cr] + right[cr..] == right[ar..];
  }

  lemma {:induction false} SidesReversed(lines: seq<Line>)
    ensures LeftSide(ReverseLines(lines)) == RightSide(lines)
    ensures RightSide(ReverseLines(lines)) == LeftSide(lines)
    decreases |lines|
  {
    if lines != [] {
      assert ReverseLines(lines)[1..] == ReverseLines(lines[1..]);
      SidesReversed(lines[1..]);
    }
  }

  lemma FollowsReversed(h: HunkText, left: seq<string>, right: seq<string>, al: nat, ar: nat)
    requires Follows(h, left, right, al, ar)
    ensures Follows(ReverseHunk(h), right, left, ar, al)
  {
    SidesReversed(h.lines);
  }

  lemma {:induction false} AccountsReversed(hunks: seq<HunkText>, left: seq<string>, right: seq<string>, al: nat,
                        ar: nat, bl: nat, br: nat)
    requires Accounts(hunks, left, right, al, ar, bl, br)
    ensures Accounts(ReverseHunks(hunks), right, left, ar, al, br, bl)
    decreases |hunks|
  {
    if hunks != [] {
      var h := hunks[0];
      FollowsReversed(h, left, right, al, ar);
      var rest := ReverseHunks(hunks[1..]);
      assert ReverseHunks(hunks)[0] == ReverseHunk(h) && ReverseHunks(hunks)[1..] == rest;
      AccountsReversed(hunks[1..], left, right, LeftEnd(h), RightEnd(h), bl, br);
    }
  }

  /** The same hunks, reversed, turn right back into left. */
  lemma PatchBothWays(hunks: seq<HunkText>, left: seq<string>, right: seq<string>)
    requires Accounts(hunks, left, right, 0, 0, |left|, |right|)
    ensures Patch(left, 0, 0, hunks) == Some(right)
    ensures Patch(right, 0, 0, ReverseHunks(hunks)) == Some(left)
  {
    AccountsMeansPatch(hunks, left, right, 0, 0);
    AccountsReversed(hunks, left, right, 0, 0, |left|, |right|);
    AccountsMeansPatch(ReverseHunks(hunks), right, left, 0, 0);
  }
}
