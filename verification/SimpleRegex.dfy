/**
  ValidateRegex, MatchRegexAtHead and MatchRegexAnywhere, proved against the
  grammar and the language of simple regular expressions.
 */
module RegexValidator {
  import opened RegexLanguage

  /** The validator's verdict on the rest of a regex, from position i, given whether a
      repetition may follow the previous token. */
  predicate ScanAccepts(regex: string, i: nat, prevRepeatable: bool)
    requires i <= |regex|
    decreases |regex| - i
  {
    if i == |regex| then true
    else if regex[i] == '\\' then
      i + 1 < |regex| && IsValidEscape(regex[i + 1]) && ScanAccepts(regex, i + 2, true)
    else
      var ch := regex[i];
      && !(ch == '^' && i > 0)
      && !(ch == '$' && i + 1 < |regex|)
      && !IsInSet(ch, "()[]{}|")
      && !(IsRepeat(ch) && !prevRepeatable)
      && ScanAccepts(regex, i + 1, !IsInSet(ch, "^$?*+"))
  }

  /** One pass over the text; after a syntax error the scan goes on, to report more. */
  method ValidateRegex(regex: CString) returns (isValid: bool)
    ensures isValid <==> IsValidRegex(regex)
  {
    isValid := true;
    var prevRepeatable := false;
    var i := 0;
    while i < |regex|
      invariant 0 <= i <= |regex|
      invariant ScanAccepts(regex, 0, false) <==> isValid && ScanAccepts(regex, i, prevRepeatable)
    {
      if regex[i] == '\\' {
        i := i + 1;
        if i == |regex| {
          ScanMeansGrammar(regex);
          return false;
        }
        if !IsValidEscape(regex[i]) {
          isValid := false;
        }
        prevRepeatable := true;
      } else {
        var ch := regex[i];
        if ch == '^' && i > 0 {
          isValid := false;
        } else if ch == '$' && i + 1 < |regex| {
          isValid := false;
        } else if IsInSet(ch, "()[]{}|") {
          isValid := false;
        } else if IsRepeat(ch) && !prevRepeatable {
          isValid := false;
        }
        prevRepeatable := !IsInSet(ch, "^$?*+");
      }
      i := i + 1;
    }
    ScanMeansGrammar(regex);
  }

  // ---- the scan accepts exactly the grammar ------------------------------------------------

  function RepeatOf(ch: char): Repeat {
    match ch
    case '?' => Optional
    case '*' => Star
    case '+' => Plus
    case _ => Once
  }

  lemma BodyFollows(items: seq<Item>, anchorEnd: bool, regex: string, i: nat)
    requires items != [] && i <= |regex| && regex[i..] == Body(items, anchorEnd)
    ensures var n := |ItemText(items[0])|;
            && i + n <= |regex| && regex[i..i + n] == ItemText(items[0])
            && regex[i + n..] == Body(items[1..], anchorEnd)
  {
    var n := |ItemText(items[0])|;
    assert regex[i..][..n] == ItemText(items[0]);
    assert regex[i..][n..] == Body(items[1..], anchorEnd);
    assert regex[i..][..n] == regex[i..i + n] && regex[i..][n..] == regex[i + n..];
  }

  /** The first character of a body starts an item or is the end anchor; it is never a
      repetition. */
  lemma BodyStart(items: seq<Item>, anchorEnd: bool)
    requires WellFormed(items)
    ensures var b := Body(items, anchorEnd);
            && (b == "" <==> items == [] && !anchorEnd)
            && (b != "" ==> !IsRepeat(b[0]) && b[0] != '^')
            && (b != "" && b[0] == '$' ==> items == [] && b == "$")
  {
    if items != [] {
      assert Body(items, anchorEnd)[0] == ItemText(items[0])[0];
    }
  }

  /** Scanning over one atom. */
  lemma AtomScanned(regex: string, i: nat, prev: bool, escaped: bool)
    requires i + (if escaped then 1 else 0) < |regex| && escaped == (regex[i] == '\\')
    requires !IsRepeat(regex[i]) && regex[i] != '$' && (regex[i] == '^' ==> i > 0)
    ensures var a := if escaped then i + 1 else i;
            ScanAccepts(regex, i, prev) <==>
            (if escaped then IsValidEscape(regex[a]) else IsPlain(regex[a])) && ScanAccepts(regex, a + 1, true)
  {
  }

  /** Scanning over a repetition. */
  lemma RepeatScanned(regex: string, j: nat, prev: bool)
    requires j < |regex| && IsRepeat(regex[j])
    ensures ScanAccepts(regex, j, prev) <==> prev && ScanAccepts(regex, j + 1, false)
  {
  }

  lemma EndScanned(regex: string, i: nat, prev: bool)
    requires i < |regex| && regex[i] == '$'
    ensures ScanAccepts(regex, i, prev) <==> i + 1 == |regex|
  {
  }

  lemma {:induction false} BodyAccepted(items: seq<Item>, anchorEnd: bool, regex: string, i: nat, prev: bool)
    requires WellFormed(items) && i <= |regex| && regex[i..] == Body(items, anchorEnd)
    ensures ScanAccepts(regex, i, prev)
    decreases |items|
  {
    if items == [] {
      if anchorEnd {
        assert regex[i] == regex[i..][0] && |regex| == i + 1;
        EndScanned(regex, i, prev);
      }
    } else {
      assert WellFormed(items[1..]);
      hide ScanAccepts, ItemText, WellFormedItem, WellFormed, Body;
      var n := |ItemText(items[0])|;
      BodyFollows(items, anchorEnd, regex, i);
      BodyAccepted(items[1..], anchorEnd, regex, i + n, false);
      BodyAccepted(items[1..], anchorEnd, regex, i + n, true);
      ItemAccepted(items[0], regex, i, prev);
    }
  }

  lemma ItemAt(item: Item, regex: string, i: nat)
    requires i + |ItemText(item)| <= |regex| && regex[i..i + |ItemText(item)|] == ItemText(item)
    ensures var a := if item.escaped then i + 1 else i;
            && regex[a] == item.c && (item.escaped ==> regex[i] == '\\')
            && (item.repeat != Once ==> i + |ItemText(item)| == a + 2 && regex[a + 1] == RepeatText(item.repeat)[0])
            && (item.repeat == Once ==> i + |ItemText(item)| == a + 1)
  {
    assert forall k :: 0 <= k < |ItemText(item)| ==> regex[i + k] == ItemText(item)[k];
  }

  lemma ItemAccepted(item: Item, regex: string, i: nat, prev: bool)
    requires WellFormedItem(item) && i + |ItemText(item)| <= |regex|
    requires regex[i..i + |ItemText(item)|] == ItemText(item)
    requires ScanAccepts(regex, i + |ItemText(item)|, false) && ScanAccepts(regex, i + |ItemText(item)|, true)
    ensures ScanAccepts(regex, i, prev)
  {
    hide ScanAccepts, IsValidEscape;
    ItemAt(item, regex, i);
    var a := if item.escaped then i + 1 else i;
    if item.repeat != Once {
      RepeatScanned(regex, a + 1, true);
    }
    AtomScanned(regex, i, prev, item.escaped);
  }

  lemma ItemSpelled(item: Item, regex: string, i: nat, next: nat)
    requires i < next <= |regex| && next == i + |ItemText(item)|
    requires var a := if item.escaped then i + 1 else i;
             && regex[a] == item.c && (item.escaped ==> regex[i] == '\\')
             && (item.repeat != Once ==> regex[a + 1] == RepeatText(item.repeat)[0])
    ensures regex[i..next] == ItemText(item)
  {
  }

  /** One item read off an accepted regex. */
  lemma AcceptedItem(regex: string, i: nat, prev: bool) returns (item: Item, next: nat)
    requires '\0' !in regex && i < |regex| && ScanAccepts(regex, i, prev)
    requires !IsRepeat(regex[i]) && regex[i] != '$' && (i == 0 ==> regex[i] != '^')
    ensures WellFormedItem(item) && i < next <= |regex| && regex[i..next] == ItemText(item)
    ensures ScanAccepts(regex, next, item.repeat == Once)
    ensures next < |regex| ==> !IsRepeat(regex[next])
  {
    hide IsValidEscape, IsPlain;
    var escaped := regex[i] == '\\';
    AtomScanned(regex, i, prev, escaped);
    var a := if escaped then i + 1 else i;
    assert regex[a] in regex;
    if a + 1 < |regex| && IsRepeat(regex[a + 1]) {
      RepeatScanned(regex, a + 1, true);
      item, next := Item(escaped, regex[a], RepeatOf(regex[a + 1])), a + 2;
      if next < |regex| && IsRepeat(regex[next]) {
        RepeatScanned(regex, next, false);
      }
    } else {
      item, next := Item(escaped, regex[a], Once), a + 1;
    }
    ItemSpelled(item, regex, i, next);
  }

  /** What the scan accepts from an item boundary on is a body. */
  lemma {:induction false} AcceptedBody(regex: string, i: nat, prev: bool) returns (items: seq<Item>, anchorEnd: bool)
    requires '\0' !in regex && i <= |regex| && ScanAccepts(regex, i, prev)
    requires i < |regex| ==> !IsRepeat(regex[i]) && (i == 0 ==> regex[i] != '^')
    ensures WellFormed(items) && regex[i..] == Body(items, anchorEnd)
    decreases |regex| - i
  {
    if i == |regex| {
      items, anchorEnd := [], false;
    } else if regex[i] == '$' {
      EndScanned(regex, i, prev);
      items, anchorEnd := [], true;
    } else {
      var item, next := AcceptedItem(regex, i, prev);
      var rest;
      rest, anchorEnd := AcceptedBody(regex, next, item.repeat == Once);
      items := [item] + rest;
      assert regex[i..] == regex[i..next] + regex[next..];
    }
  }

  lemma AcceptedIsValid(regex: CString)
    requires ScanAccepts(regex, 0, false)
    ensures IsValidRegex(regex)
  {
    if regex != "" && regex[0] == '^' {
      var items, anchorEnd := AcceptedBody(regex, 1, false);
      assert regex == "^" + regex[1..];
      assert Text(Pattern(true, items, anchorEnd)) == regex;
    } else {
      var items, anchorEnd := AcceptedBody(regex, 0, false);
      assert Text(Pattern(false, items, anchorEnd)) == regex;
    }
  }

  lemma ValidIsAccepted(p: Pattern)
    requires WellFormed(p.items)
    ensures ScanAccepts(Text(p), 0, false)
  {
    var start := if p.anchorStart then 1 else 0;
    assert Text(p)[start..] == Body(p.items, p.anchorEnd);
    BodyAccepted(p.items, p.anchorEnd, Text(p), start, false);
  }

  lemma ScanMeansGrammar(regex: CString)
    ensures ScanAccepts(regex, 0, false) <==> IsValidRegex(regex)
  {
    if ScanAccepts(regex, 0, false) {
      AcceptedIsValid(regex);
    }
    if IsValidRegex(regex) {
      var p: Pattern :| WellFormed(p.items) && Text(p) == regex;
      ValidIsAccepted(p);
    }
  }
}

module RegexMatcher {
  import opened RegexLanguage
  import opened RegexValidator

  /** The character at an index, or the terminator at the end. */
  function CharAt(s: string, i: nat): char
    requires i <= |s|
  {
    if i < |s| then s[i] else '\0'
  }

  /** The first i characters match the atom, and no smaller number of them leads to a match. */
  ghost predicate Tried(items: seq<Item>, anchorEnd: bool, s: string, i: nat)
    requires items != []
  {
    && i <= |s| && AllMatch(items[0], s[..i])
    && forall k :: 0 <= k < i && CountFits(items[0].repeat, k) ==> !MatchesHead(items[1..], anchorEnd, s[k..])
  }

  lemma TriedNext(items: seq<Item>, anchorEnd: bool, s: string, i: nat)
    requires items != [] && Tried(items, anchorEnd, s, i)
    requires CountFits(items[0].repeat, i) ==> !MatchesHead(items[1..], anchorEnd, s[i..])
    ensures if i < |s| && AtomMatchesChar(items[0].escaped, items[0].c, s[i])
            then Tried(items, anchorEnd, s, i + 1)
            else !MatchesHead(items, anchorEnd, s)
  {
    hide MatchesHead, AtomMatchesChar, CountFits;
    if i < |s| && AtomMatchesChar(items[0].escaped, items[0].c, s[i]) {
      assert s[..i + 1] == s[..i] + [s[i]];
      return;
    }
    HeadByFirstItem(items, anchorEnd, s);
    forall k | i < k <= |s| ensures !AllMatch(items[0], s[..k]) {
      assert s[..k][i] == s[i];
    }
  }

  lemma TriedAll(items: seq<Item>, anchorEnd: bool, s: string, i: nat)
    requires items != [] && Tried(items, anchorEnd, s, i)
    ensures CountFits(items[0].repeat, i) && MatchesHead(items[1..], anchorEnd, s[i..]) ==>
              MatchesHead(items, anchorEnd, s)
    ensures items[0].repeat.Optional? && i > 1 ==> !MatchesHead(items, anchorEnd, s)
  {
    HeadByFirstItem(items, anchorEnd, s);
  }

  /** Tries 0, 1, 2, ... characters for the repeated atom and the rest of the regex
      for what follows. */
  method MatchRepetitionAndRegexAtHead(escaped: bool, c: char, repeat: char, regex: CString, str: CString,
                                       ghost items: seq<Item>, ghost anchorEnd: bool)
    returns (matches: bool)
    requires IsRepeat(repeat) && items != [] && WellFormed(items) && items[0] == Item(escaped, c, RepeatOf(repeat))
    requires regex == Body(items[1..], anchorEnd)
    ensures matches <==> MatchesHead(items, anchorEnd, str)
    decreases |regex|, 1
  {
    var minCount := if repeat == '+' then 1 else 0;
    var i: nat := 0;
    assert Tried(items, anchorEnd, str, 0);
    hide Tried, MatchesHead, AllMatch, AtomMatchesChar, WellFormed, Body;
    while repeat != '?' || i <= 1
      invariant Tried(items, anchorEnd, str, i) && i <= |str|
      decreases |str| - i
    {
      TriedAll(items, anchorEnd, str, i);
      if i >= minCount {
        var tail := MatchRegexAtHead(regex, str[i..], items[1..], anchorEnd);
        if tail {
          return true;
        }
      }
      TriedNext(items, anchorEnd, str, i);
      if i == |str| || !AtomMatchesChar(escaped, c, str[i]) {
        return false;
      }
      i := i + 1;
    }
    TriedAll(items, anchorEnd, str, i);
    return false;
  }

  /** Whether a prefix of str matches; the regex is valid and has no start anchor. */
  method MatchRegexAtHead(regex: CString, str: CString, ghost items: seq<Item>, ghost anchorEnd: bool)
    returns (matches: bool)
    requires WellFormed(items) && regex == Body(items, anchorEnd)
    ensures matches <==> MatchesHead(items, anchorEnd, str)
    decreases |regex|, 0
  {
    BodyStart(items, anchorEnd);
    if CharAt(regex, 0) == '\0' {
      assert Language(items, str[..0]);
      return true;
    }
    if regex[0] == '$' {
      assert str[..|str|] == str;
      return str == "";
    }
    FirstItem(items, anchorEnd, regex);
    ghost var item := items[0];
    var escaped := regex[0] == '\\';
    var rest: CString := if escaped then regex[1..] else regex;
    var follow := CharAt(rest, 1);
    if IsRepeat(follow) {
      matches := MatchRepetitionAndRegexAtHead(escaped, rest[0], follow, rest[2..], str, items, anchorEnd);
    } else {
      HeadByFirstItem(items, anchorEnd, str);
      matches := false;
      if str != "" && AtomMatchesChar(escaped, rest[0], str[0]) {
        matches := MatchRegexAtHead(rest[1..], str[1..], items[1..], anchorEnd);
        assert AllMatch(item, str[..1]);
      }
    }
  }

  /** How the first item shows in the text. */
  lemma FirstItem(items: seq<Item>, anchorEnd: bool, regex: string)
    requires WellFormed(items) && items != [] && regex == Body(items, anchorEnd)
    ensures regex != "" && items[0].escaped == (regex[0] == '\\')
    ensures var rest := if items[0].escaped then regex[1..] else regex;
            && rest != "" && rest[0] == items[0].c
            && (if items[0].repeat == Once
                then !IsRepeat(CharAt(rest, 1)) && rest[1..] == Body(items[1..], anchorEnd)
                else |rest| > 1 && IsRepeat(rest[1]) && RepeatOf(rest[1]) == items[0].repeat &&
                     rest[2..] == Body(items[1..], anchorEnd))
  {
    var item := items[0];
    assert regex[0..] == regex;
    BodyFollows(items, anchorEnd, regex, 0);
    ItemAt(item, regex, 0);
    BodyStart(items[1..], anchorEnd);
    if item.escaped {
      assert regex[1..][1..] == regex[2..];
      if item.repeat != Once {
        assert regex[1..][2..] == regex[3..];
      }
    }
  }

  /** Whether any substring of str matches. */
  method MatchRegexAnywhere(regex: CString, str: CString, ghost p: Pattern) returns (matches: bool)
    requires WellFormed(p.items) && regex == Text(p)
    ensures matches <==> MatchesSomewhere(p, str)
  {
    BodyStart(p.items, p.anchorEnd);
    SomewhereByHeads(p, str);
    if CharAt(regex, 0) == '^' {
      assert regex[1..] == Body(p.items, p.anchorEnd);
      matches := MatchRegexAtHead(regex[1..], str, p.items, p.anchorEnd);
      return;
    }
    var i := 0;
    while true
      invariant 0 <= i <= |str|
      invariant forall k :: 0 <= k < i ==> !MatchesHead(p.items, p.anchorEnd, str[k..])
      decreases |str| - i
    {
      matches := MatchRegexAtHead(regex, str[i..], p.items, p.anchorEnd);
      if matches || i == |str| {
        return;
      }
      i := i + 1;
    }
  }
}
