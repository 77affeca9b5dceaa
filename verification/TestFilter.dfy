/**
  Filter strings: `:`-separated patterns, of which those after the first `-`
  exclude tests.
 */
module TestFilter {
  import opened Glob

  // ---- splitting -----------------------------------------------------------------

  /** The pieces of a text between delimiters; never empty. */
  function Split(text: string, delimiter: char): (parts: seq<string>)
    ensures parts != []
  {
    if text == [] then [[]]
    else if text[0] == delimiter then [[]] + Split(text[1..], delimiter)
    else
      var rest := Split(text[1..], delimiter);
      [[text[0]] + rest[0]] + rest[1..]
  }

  function Join(parts: seq<string>, delimiter: char): string
    requires parts != []
  {
    if |parts| == 1 then parts[0] else parts[0] + [delimiter] + Join(parts[1..], delimiter)
  }

  /** The pieces are what the delimiter separates: joining them gives the text back,
      and none contains the delimiter. */
  lemma {:induction false} SplitJoin(text: string, delimiter: char)
    ensures Join(Split(text, delimiter), delimiter) == text
    ensures forall part :: part in Split(text, delimiter) ==> delimiter !in part
  {
    if text != [] {
      SplitJoin(text[1..], delimiter);
      var rest := Split(text[1..], delimiter);
      if text[0] == delimiter {
        assert ([[]] + rest)[1..] == rest;
      } else {
        var first := [text[0]] + rest[0];
        assert ([first] + rest[1..])[1..] == rest[1..];
        if |rest| > 1 {
          assert text == [text[0]] + (rest[0] + [delimiter] + Join(rest[1..], delimiter));
          assert text == first + [delimiter] + Join(rest[1..], delimiter);
        }
      }
    }
  }

  lemma {:induction false} SplitWithout(text: string, delimiter: char)
    requires delimiter !in text
    ensures Split(text, delimiter) == [text]
  {
    if text != [] {
      assert text == [text[0]] + text[1..];
      SplitWithout(text[1..], delimiter);
    }
  }

  lemma {:induction false} SplitAt(text: string, delimiter: char, k: nat)
    requires k < |text| && text[k] == delimiter && delimiter !in text[..k]
    ensures Split(text, delimiter) == [text[..k]] + Split(text[k + 1..], delimiter)
  {
    if k == 0 {
      assert text[..0] == [];
    } else {
      assert text[0] == text[..k][0] != delimiter;
      assert text[1..][..k - 1] == text[..k][1..];
      assert text[1..][k..] == text[k + 1..];
      SplitAt(text[1..], delimiter, k - 1);
      assert text[..k] == [text[0]] + text[1..][..k - 1];
    }
  }

  /** The position of the first delimiter from pos on, or the end. */
  method Find(text: string, delimiter: char, pos: nat) returns (found: nat)
    requires pos <= |text|
    ensures pos <= found <= |text| && delimiter !in text[pos..found]
    ensures found < |text| ==> text[found] == delimiter
  {
    found := pos;
    while found < |text| && text[found] != delimiter
      invariant pos <= found <= |text| && delimiter !in text[pos..found]
    {
      found := found + 1;
    }
  }

  method SplitString(text: string, delimiter: char) returns (parsed: seq<string>)
    ensures parsed == Split(text, delimiter)
  {
    parsed := [];
    var pos: nat := 0;
    assert text[0..] == text;
    while true
      invariant pos <= |text|
      invariant Split(text, delimiter) == parsed + Split(text[pos..], delimiter)
      decreases |text| - pos
    {
      var colon := Find(text, delimiter, pos);
      if colon == |text| {
        assert text[pos..colon] == text[pos..];
        SplitWithout(text[pos..], delimiter);
        parsed := parsed + [text[pos..]];
        return;
      }
      SplitFrom(text, delimiter, pos, colon);
      parsed := parsed + [text[pos..colon]];
      pos := colon + 1;
    }
  }

  lemma SplitFrom(text: string, delimiter: char, pos: nat, found: nat)
    requires pos <= found < |text| && text[found] == delimiter && delimiter !in text[pos..found]
    ensures Split(text[pos..], delimiter) == [text[pos..found]] + Split(text[found + 1..], delimiter)
  {
    assert text[pos..][..found - pos] == text[pos..found];
    assert text[pos..][found - pos + 1..] == text[found + 1..];
    SplitAt(text[pos..], delimiter, found - pos);
  }

  // ---- one list of patterns ------------------------------------------------------------

  /** Some pattern of the list matches the name. */
  ghost predicate SomeMatches(patterns: seq<string>, name: string) {
    exists i :: 0 <= i < |patterns| && Matches(patterns[i], name)
  }

  lemma TwoPatterns(first: string, second: string, name: string)
    requires ':' !in first && ':' !in second
    ensures SomeMatches(Split(first + [':'] + second, ':'), name) <==> Matches(first, name) || Matches(second, name)
  {
    var text := first + [':'] + second;
    assert text[..|first|] == first && text[|first| + 1..] == second;
    SplitAt(text, ':', |first|);
    SplitWithout(second, ':');
    hide Split, Matches;
    var patterns := Split(text, ':');
    assert patterns == [first, second];
    assert patterns[0] == first && patterns[1] == second;
  }

  predicate IsGlobPattern(pattern: string) {
    exists i :: 0 <= i < |pattern| && (pattern[i] == '?' || pattern[i] == '*')
  }

  /** Patterns without wildcards match themselves only, so they may be looked up. */
  lemma {:induction false} PlainPatternIsExact(pattern: string, name: string)
    requires !IsGlobPattern(pattern)
    ensures Matches(pattern, name) <==> pattern == name
  {
    if pattern != [] && name != [] {
      PlainPatternIsExact(pattern[1..], name[1..]);
      assert pattern == [pattern[0]] + pattern[1..] && name == [name[0]] + name[1..];
    }
  }

  datatype UnitTestFilter = UnitTestFilter(globPatterns: seq<string>, exactMatchPatterns: set<string>)
  {
    static const EMPTY := UnitTestFilter([], {})

    /** The two containers together hold the patterns of the list. */
    ghost predicate Holds(patterns: seq<string>) {
      && (forall p :: p in globPatterns <==> p in patterns && IsGlobPattern(p))
      && (forall p :: p in exactMatchPatterns <==> p in patterns && !IsGlobPattern(p))
    }

    method MatchesName(name: string, ghost patterns: seq<string>) returns (matches: bool)
      requires Holds(patterns)
      ensures matches <==> SomeMatches(patterns, name)
    {
      if name in exactMatchPatterns {
        PlainPatternIsExact(name, name);
        ghost var i :| 0 <= i < |patterns| && patterns[i] == name;
        return true;
      }
      for i := 0 to |globPatterns|
        invariant forall k :: 0 <= k < i ==> !Matches(globPatterns[k], name)
      {
        var m := PatternMatchesString(name, globPatterns[i]);
        if m {
          assert globPatterns[i] in patterns;
          return true;
        }
      }
      forall k | 0 <= k < |patterns| ensures !Matches(patterns[k], name) {
        if !IsGlobPattern(patterns[k]) {
          PlainPatternIsExact(patterns[k], name);
        } else {
          assert patterns[k] in globPatterns;
        }
      }
      return false;
    }
  }

  method MakeFilter(filter: string) returns (f: UnitTestFilter)
    ensures f.Holds(Split(filter, ':'))
  {
    var all := SplitString(filter, ':');
    var globs, exacts := [], {};
    for i := 0 to |all|
      invariant UnitTestFilter(globs, exacts).Holds(all[..i])
    {
      assert all[..i + 1] == all[..i] + [all[i]];
      if IsGlobPattern(all[i]) {
        globs := globs + [all[i]];
      } else {
        exacts := exacts + {all[i]};
      }
    }
    assert all[..|all|] == all;
    f := UnitTestFilter(globs, exacts);
  }

  // ---- positive and negative patterns ------------------------------------------------------

  const UNIVERSAL_FILTER := "*"

  /** What comes before the first delimiter, or all of the text. */
  ghost function Before(text: string, delimiter: char): string {
    if text == [] || text[0] == delimiter then [] else [text[0]] + Before(text[1..], delimiter)
  }

  /** What comes after the first delimiter. */
  ghost function After(text: string, delimiter: char): string {
    if text == [] then [] else if text[0] == delimiter then text[1..] else After(text[1..], delimiter)
  }

  /** The patterns that select: those before the first `-`, or `*` if there is a `-`
      and nothing before it. */
  ghost function PositivePatterns(filter: string): seq<string> {
    Split(if '-' in filter && Before(filter, '-') == "" then UNIVERSAL_FILTER else Before(filter, '-'), ':')
  }

  /** The patterns that exclude: those after the first `-`, if there is one. */
  ghost function NegativePatterns(filter: string): seq<string> {
    if '-' in filter then Split(After(filter, '-'), ':') else []
  }

  ghost predicate Selected(filter: string, name: string) {
    SomeMatches(PositivePatterns(filter), name) && !SomeMatches(NegativePatterns(filter), name)
  }

  /** The first piece ends at the first delimiter, and the other pieces joined again
      are everything after it. */
  lemma {:induction false} FirstPiece(text: string, delimiter: char)
    ensures var parts := Split(text, delimiter);
            && (delimiter in text <==> |parts| > 1)
            && parts[0] == Before(text, delimiter)
            && (delimiter in text ==> Join(parts[1..], delimiter) == After(text, delimiter))
  {
    if text != [] {
      var rest := Split(text[1..], delimiter);
      if text[0] == delimiter {
        SplitJoin(text[1..], delimiter);
        assert Split(text, delimiter)[1..] == rest;
      } else {
        FirstPiece(text[1..], delimiter);
        assert Split(text, delimiter)[1..] == rest[1..];
      }
    }
  }

  lemma {:induction false} AroundTheFirst(text: string, delimiter: char, k: nat)
    requires k < |text| && text[k] == delimiter && delimiter !in text[..k]
    ensures Before(text, delimiter) == text[..k] && After(text, delimiter) == text[k + 1..]
  {
    if k > 0 {
      assert text[0] == text[..k][0] != delimiter;
      assert text[1..][..k - 1] == text[..k][1..] && text[1..][k..] == text[k + 1..];
      AroundTheFirst(text[1..], delimiter, k - 1);
      assert text[..k] == [text[0]] + text[1..][..k - 1];
    }
  }

  lemma {:induction false} BeforeNone(text: string, delimiter: char)
    requires delimiter !in text
    ensures Before(text, delimiter) == text
  {
    if text != [] {
      BeforeNone(text[1..], delimiter);
    }
  }

  lemma AllSelected(name: string)
    ensures SomeMatches(Split(UNIVERSAL_FILTER, ':'), name)
  {
    SplitWithout(UNIVERSAL_FILTER, ':');
    StarMatchesAll(name);
    assert Split(UNIVERSAL_FILTER, ':')[0] == "*";
  }

  /** What a filter with its first dash in place k selects; with nothing before the dash,
      everything that the rest does not exclude. */
  lemma SelectedAroundDash(filter: string, k: nat, name: string)
    requires k < |filter| && filter[k] == '-' && '-' !in filter[..k]
    ensures Selected(filter, name) <==>
            (k == 0 || SomeMatches(Split(filter[..k], ':'), name)) && !SomeMatches(Split(filter[k + 1..], ':'), name)
  {
    hide SomeMatches, Split;
    AroundTheFirst(filter, '-', k);
    AllSelected(name);
  }

  /** What a filter without a dash selects. */
  lemma SelectedWithoutDash(filter: string, name: string)
    requires '-' !in filter
    ensures Selected(filter, name) <==> SomeMatches(Split(filter, ':'), name)
  {
    BeforeNone(filter, '-');
  }

  datatype PositiveAndNegativeUnitTestFilter = PositiveAndNegativeUnitTestFilter(positive: UnitTestFilter,
                                                                                 negative: UnitTestFilter)
  {
    ghost predicate Represents(filter: string) {
      positive.Holds(PositivePatterns(filter)) && negative.Holds(NegativePatterns(filter))
    }

    method MatchesName(name: string, ghost filter: string) returns (matches: bool)
      requires Represents(filter)
      ensures matches <==> Selected(filter, name)
    {
      matches := positive.MatchesName(name, PositivePatterns(filter));
      if matches {
        var excluded := negative.MatchesName(name, NegativePatterns(filter));
        matches := !excluded;
      }
    }

    method MatchesTest(suiteName: string, testName: string, ghost filter: string) returns (matches: bool)
      requires Represents(filter)
      ensures matches <==> Selected(filter, suiteName + "." + testName)
    {
      matches := MatchesName(suiteName + "." + testName, filter);
    }
  }

  method MakePositiveAndNegativeFilter(filter: string) returns (f: PositiveAndNegativeUnitTestFilter)
    ensures f.Represents(filter)
  {
    FirstPiece(filter, '-');
    hide Split;
    var parts := SplitString(filter, '-');
    if |parts| > 1 {
      var positive := MakeFilter(if parts[0] == "" then UNIVERSAL_FILTER else parts[0]);
      var negativeText := parts[1];
      for i := 2 to |parts|
        invariant negativeText == Join(parts[1..i], '-')
      {
        JoinSnoc(parts[1..i], parts[i], '-');
        assert parts[1..i + 1] == parts[1..i] + [parts[i]];
        negativeText := negativeText + ['-'] + parts[i];
      }
      assert parts[1..|parts|] == parts[1..];
      var negative := MakeFilter(negativeText);
      f := PositiveAndNegativeUnitTestFilter(positive, negative);
    } else {
      var positive := MakeFilter(parts[0]);
      f := PositiveAndNegativeUnitTestFilter(positive, UnitTestFilter.EMPTY);
    }
  }

  lemma {:induction false} JoinSnoc(parts: seq<string>, part: string, delimiter: char)
    requires parts != []
    ensures Join(parts + [part], delimiter) == Join(parts, delimiter) + [delimiter] + part
    decreases |parts|
  {
    assert (parts + [part])[1..] == parts[1..] + [part];
    if |parts| > 1 {
      JoinSnoc(parts[1..], part, delimiter);
    }
  }
}
