/**
  RE: a validated regex together with the anchored form used for full matches, and
  exactly when a full match is one.
 */
module RegularExpression {
  import opened RegexLanguage
  import opened RegexValidator
  import opened RegexMatcher
  import opened SharedTypes

  /** The grammar is unambiguous: a text is the text of one pattern only. */
  lemma {:induction false} BodyIsUnambiguous(items: seq<Item>, anchorEnd: bool, items': seq<Item>, anchorEnd': bool)
    requires WellFormed(items) && WellFormed(items') && Body(items, anchorEnd) == Body(items', anchorEnd')
    ensures items == items' && anchorEnd == anchorEnd'
    decreases |items|
  {
    BodyStart(items, anchorEnd);
    BodyStart(items', anchorEnd');
    assert items == [] <==> items' == [];
    if items != [] {
      FirstItem(items, anchorEnd, Body(items, anchorEnd));
      FirstItem(items', anchorEnd', Body(items, anchorEnd));
      assert items[0] == items'[0];
      BodyIsUnambiguous(items[1..], anchorEnd, items'[1..], anchorEnd');
      assert items == [items[0]] + items[1..] && items' == [items'[0]] + items'[1..];
    }
  }

  lemma TextIsUnambiguous(p: Pattern, q: Pattern)
    requires WellFormed(p.items) && WellFormed(q.items) && Text(p) == Text(q)
    ensures p == q
  {
    BodyStart(p.items, p.anchorEnd);
    BodyStart(q.items, q.anchorEnd);
    assert p.anchorStart <==> Text(p) != "" && Text(p)[0] == '^';
    assert q.anchorStart <==> Text(q) != "" && Text(q)[0] == '^';
    if p.anchorStart {
      assert Text(p)[1..] == Body(p.items, p.anchorEnd) && Text(q)[1..] == Body(q.items, q.anchorEnd);
      BodyIsUnambiguous(p.items, p.anchorEnd, q.items, q.anchorEnd);
    } else {
      assert Text(p) == Body(p.items, p.anchorEnd) && Text(q) == Body(q.items, q.anchorEnd);
      BodyIsUnambiguous(p.items, p.anchorEnd, q.items, q.anchorEnd);
    }
  }

  // ---- the anchored form ---------------------------------------------------------------

  /** The text ends in a dollar sign that is an escaped character, not an anchor. */
  predicate EndsInEscapedDollar(p: Pattern) {
    !p.anchorEnd && p.items != [] && p.items[|p.items| - 1] == Item(true, '$', Once)
  }

  /** The pattern that full matches are made with: no end anchor is added when the
      text already ends in a dollar sign. */
  function FullPattern(p: Pattern): Pattern {
    Pattern(true, p.items, !EndsInEscapedDollar(p))
  }

  lemma ItemEnd(item: Item)
    requires WellFormedItem(item)
    ensures ItemText(item) != ""
    ensures ItemText(item)[|ItemText(item)| - 1] == '$' <==> item == Item(true, '$', Once)
  {
  }

  lemma {:induction false} BodyEnd(items: seq<Item>, anchorEnd: bool)
    requires WellFormed(items)
    ensures var b := Body(items, anchorEnd);
            && (b != "" && b[|b| - 1] == '$' <==> anchorEnd || EndsInEscapedDollar(Pattern(false, items, anchorEnd)))
            && Body(items, true) == Body(items, false) + "$"
  {
    if items == [] {
      return;
    }
    BodyEnd(items[1..], anchorEnd);
    var item := items[0];
    ItemEnd(item);
    hide WellFormedItem, WellFormed, ItemText;
    assert Body(items, true) == ItemText(item) + Body(items[1..], false) + "$";
    if |items| == 1 && !anchorEnd {
      assert Body(items, anchorEnd) == ItemText(item);
    }
  }

  lemma AddedAnchors(anchorStart: bool, body: string, fullBody: string)
    requires body == "" || body[0] != '^'
    requires fullBody == if body != "" && body[|body| - 1] == '$' then body else body + "$"
    ensures var text := (if anchorStart then "^" else "") + body;
            "^" + fullBody ==
            (if text == "" || text[0] != '^' then "^" else "") + text +
            (if text == "" || text[|text| - 1] != '$' then "$" else "")
  {
    if anchorStart {
      assert ("^" + body)[|body|] == if body == "" then '^' else body[|body| - 1];
    }
  }

  /** What the code makes of the text is the text of the full pattern. */
  lemma FullPatternText(p: Pattern)
    requires WellFormed(p.items)
    ensures var text := Text(p);
            && (text != "" && text[0] == '^' <==> p.anchorStart)
            && Text(FullPattern(p)) ==
               (if text == "" || text[0] != '^' then "^" else "") + text +
               (if text == "" || text[|text| - 1] != '$' then "$" else "")
  {
    hide Body, WellFormed;
    BodyStart(p.items, p.anchorEnd);
    BodyEnd(p.items, p.anchorEnd);
    AddedAnchors(p.anchorStart, Body(p.items, p.anchorEnd), Body(p.items, !EndsInEscapedDollar(p)));
  }

  method AnchorBothEnds(pattern: CString, ghost p: Pattern) returns (fullPattern: CString)
    requires WellFormed(p.items) && pattern == Text(p)
    ensures fullPattern == Text(FullPattern(p))
  {
    FullPatternText(p);
    hide Text, FullPattern, WellFormed;
    fullPattern := "";
    if pattern == "" || pattern[0] != '^' {
      fullPattern := fullPattern + "^";
    }
    fullPattern := fullPattern + pattern;
    if pattern == "" || pattern[|pattern| - 1] != '$' {
      fullPattern := fullPattern + "$";
    }
  }

  // ---- the class ---------------------------------------------------------------------------

  class RE {
    var pattern: string
    var fullPattern: string
    var isValid: bool
    ghost var parsed: Pattern

    ghost predicate Valid()
      reads this
    {
      isValid ==>
        && '\0' !in pattern && '\0' !in fullPattern
        && WellFormed(parsed.items) && pattern == Text(parsed) && fullPattern == Text(FullPattern(parsed))
    }

    constructor Init(regex: Option<CString>)
      ensures Valid()
      ensures isValid <==> regex.Some? && IsValidRegex(regex.value)
      ensures isValid ==> pattern == regex.value
    {
      pattern, fullPattern, isValid := "", "", false;
      parsed := Pattern(false, [], false);
      new;
      if regex.Some? {
        pattern := regex.value;
        isValid := ValidateRegex(regex.value);
      }
      if !isValid {
        return;
      }
      ghost var p: Pattern :| WellFormed(p.items) && Text(p) == regex.value;
      parsed := p;
      fullPattern := AnchorBothEnds(regex.value, p);
    }

    /** A substring is in the language of the regex, anchors honoured. */
    static method PartialMatch(str: CString, re: RE) returns (matches: bool)
      requires re.Valid()
      ensures matches <==> re.isValid && MatchesSomewhere(re.parsed, str)
    {
      matches := re.isValid;
      if matches {
        matches := MatchRegexAnywhere(re.pattern, str, re.parsed);
      }
    }

    static method FullMatch(str: CString, re: RE) returns (matches: bool)
      requires re.Valid()
      ensures matches <==> re.isValid && FullMatches(re.parsed, str)
    {
      matches := re.isValid;
      if matches {
        matches := MatchRegexAnywhere(re.fullPattern, str, FullPattern(re.parsed));
      }
    }
  }

  // ---- when a full match is one --------------------------------------------------------------

  /** What FullMatch answers for a valid regex. */
  ghost predicate FullMatches(p: Pattern, s: string) {
    MatchesSomewhere(FullPattern(p), s)
  }

  /** Without an escaped dollar at the end, exactly the words of the language match fully;
      with one, every string that starts with a word does. */
  lemma FullMatchMeaning(p: Pattern, s: string)
    ensures !EndsInEscapedDollar(p) ==> (FullMatches(p, s) <==> Language(p.items, s))
    ensures EndsInEscapedDollar(p) ==> (FullMatches(p, s) <==> exists n :: 0 <= n <= |s| && Language(p.items, s[..n]))
  {
    SomewhereByHeads(FullPattern(p), s);
    assert s[..|s|] == s;
  }

  /** A character that an atom matches. */
  function Sample(item: Item): char {
    if !item.escaped then item.c
    else
      match item.c
      case 'd' => '0'
      case 'D' => 'a'
      case 'f' => '\U{c}'
      case 'n' => '\n'
      case 'r' => '\r'
      case 's' => ' '
      case 'S' => 'a'
      case 't' => '\t'
      case 'v' => '\U{b}'
      case 'w' => 'a'
      case 'W' => ' '
      case _ => item.c
  }

  lemma SampleMatches(item: Item)
    requires WellFormedItem(item)
    ensures AtomMatchesChar(item.escaped, item.c, Sample(item)) && Sample(item) != '\0'
  {
  }

  /** No language is empty. */
  lemma {:induction false} SomeWord(items: seq<Item>) returns (w: CString)
    requires WellFormed(items)
    ensures Language(items, w)
  {
    if items == [] {
      w := "";
    } else {
      var rest := SomeWord(items[1..]);
      SampleMatches(items[0]);
      w := [Sample(items[0])] + rest;
      assert w[..1] == [Sample(items[0])] && w[1..] == rest;
    }
  }

  /** Words of a list that ends in an escaped dollar end in a dollar. */
  lemma {:induction false} WordsEndInDollar(items: seq<Item>, w: string)
    requires items != [] && items[|items| - 1] == Item(true, '$', Once) && Language(items, w)
    ensures w != "" && w[|w| - 1] == '$'
  {
    var k :| 0 <= k <= |w| && CountFits(items[0].repeat, k) && AllMatch(items[0], w[..k]) &&
      Language(items[1..], w[k..]);
    if |items| == 1 {
      assert w == w[..k] + w[k..];
      assert AtomMatchesChar(true, '$', w[..k][0]);
    } else {
      WordsEndInDollar(items[1..], w[k..]);
    }
  }

  /** A full match means that the whole string is in the language for exactly those
      regexes that do not end in an escaped dollar. */
  lemma FullMatchIsExact(p: Pattern)
    requires WellFormed(p.items)
    ensures (forall s: CString :: FullMatches(p, s) <==> Language(p.items, s)) <==> !EndsInEscapedDollar(p)
  {
    hide Language, FullMatches, WellFormed;
    if EndsInEscapedDollar(p) {
      var w := SomeWord(p.items);
      var s: CString := w + "x";
      assert s[..|w|] == w;
      FullMatchMeaning(p, s);
      if Language(p.items, s) {
        WordsEndInDollar(p.items, s);
      }
      assert FullMatches(p, s) && !Language(p.items, s);
    } else {
      forall s: CString ensures FullMatches(p, s) <==> Language(p.items, s) {
        FullMatchMeaning(p, s);
      }
    }
  }
}
