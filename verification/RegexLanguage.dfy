/**
  The simple regular expressions that stand in for POSIX ones where there are
  none: their grammar, their language, the validator and the matcher.
 */
module RegexLanguage {

  /** Text without the terminating character. */
  type CString = s: string | '\0' !in s witness ""

  // ---- characters ------------------------------------------------------------------

  predicate IsInSet(ch: char, chars: string) {
    ch in chars
  }

  predicate IsAsciiDigit(ch: char) {
    '0' <= ch <= '9'
  }

  predicate IsAsciiPunct(ch: char) {
    IsInSet(ch, "^-!\"#$%&'()*+,./:;<=>?@[\\]_`{|}~")
  }

  predicate IsRepeat(ch: char) {
    IsInSet(ch, "?*+")
  }

  predicate IsAsciiWhiteSpace(ch: char) {
    IsInSet(ch, " \U{c}\n\r\t\U{b}")
  }

  predicate IsAsciiWordChar(ch: char) {
    'a' <= ch <= 'z' || 'A' <= ch <= 'Z' || '0' <= ch <= '9' || ch == '_'
  }

  predicate IsValidEscape(c: char) {
    IsAsciiPunct(c) || IsInSet(c, "dDfnrsStvwW")
  }

  predicate AtomMatchesChar(escaped: bool, patternChar: char, ch: char) {
    if escaped then
      match patternChar
      case 'd' => IsAsciiDigit(ch)
      case 'D' => !IsAsciiDigit(ch)
      case 'f' => ch == '\U{c}'
      case 'n' => ch == '\n'
      case 'r' => ch == '\r'
      case 's' => IsAsciiWhiteSpace(ch)
      case 'S' => !IsAsciiWhiteSpace(ch)
      case 't' => ch == '\t'
      case 'v' => ch == '\U{b}'
      case 'w' => IsAsciiWordChar(ch)
      case 'W' => !IsAsciiWordChar(ch)
      case _ => IsAsciiPunct(patternChar) && patternChar == ch
    else
      (patternChar == '.' && ch != '\n') || patternChar == ch
  }

  // ---- the characters by their codes -------------------------------------------------------

  predicate IsBetween(ch: char, lo: int, hi: int) {
    lo <= ch as int <= hi
  }

  ghost predicate HasCode(ch: char, codes: set<int>) {
    ch as int in codes
  }

  /** Which characters the class escapes stand for: digits, white space and word characters. */
  lemma ClassesByCode(ch: char)
    ensures AtomMatchesChar(true, 'd', ch) <==> IsBetween(ch, 0x30, 0x39)
    ensures AtomMatchesChar(true, 's', ch) <==> IsBetween(ch, 9, 13) || ch as int == 0x20
    ensures AtomMatchesChar(true, 'w', ch) <==>
            IsBetween(ch, 0x30, 0x39) || IsBetween(ch, 0x41, 0x5A) || IsBetween(ch, 0x61, 0x7A) || ch as int == 0x5F
    ensures AtomMatchesChar(true, 'D', ch) <==> !AtomMatchesChar(true, 'd', ch)
    ensures AtomMatchesChar(true, 'S', ch) <==> !AtomMatchesChar(true, 's', ch)
    ensures AtomMatchesChar(true, 'W', ch) <==> !AtomMatchesChar(true, 'w', ch)
  {
  }

  /** Which single characters the control escapes stand for. */
  lemma ControlsByCode(ch: char)
    ensures AtomMatchesChar(true, 'f', ch) <==> ch as int == 12
    ensures AtomMatchesChar(true, 'n', ch) <==> ch as int == 10
    ensures AtomMatchesChar(true, 'r', ch) <==> ch as int == 13
    ensures AtomMatchesChar(true, 't', ch) <==> ch as int == 9
    ensures AtomMatchesChar(true, 'v', ch) <==> ch as int == 11
  {
  }

  /** The 32 punctuation characters of ASCII. */
  lemma PunctuationByCode(ch: char)
    ensures IsAsciiPunct(ch) <==>
            IsBetween(ch, 0x21, 0x2F) || IsBetween(ch, 0x3A, 0x40) || IsBetween(ch, 0x5B, 0x60) ||
            IsBetween(ch, 0x7B, 0x7E)
  {
  }

  /** Any other escaped character stands for itself, if it is punctuation; a dot that is not
      escaped for all but the line feed; and all else for itself. */
  lemma OtherAtoms(c: char, ch: char)
    ensures c !in "dDfnrsStvwW" ==>
              (AtomMatchesChar(true, c, ch) <==>
                 ch == c && (IsBetween(c, 0x21, 0x2F) || IsBetween(c, 0x3A, 0x40) || IsBetween(c, 0x5B, 0x60) ||
                             IsBetween(c, 0x7B, 0x7E)))
    ensures AtomMatchesChar(false, '.', ch) <==> ch as int != 10
    ensures c != '.' ==> (AtomMatchesChar(false, c, ch) <==> ch == c)
  {
    PunctuationByCode(c);
    hide IsAsciiPunct, IsAsciiDigit, IsAsciiWhiteSpace, IsAsciiWordChar;
    assert "dDfnrsStvwW"[0] == 'd' && "dDfnrsStvwW"[1] == 'D' && "dDfnrsStvwW"[2] == 'f' && "dDfnrsStvwW"[3] == 'n';
    assert "dDfnrsStvwW"[4] == 'r' && "dDfnrsStvwW"[5] == 's' && "dDfnrsStvwW"[6] == 'S' && "dDfnrsStvwW"[7] == 't';
    assert "dDfnrsStvwW"[8] == 'v' && "dDfnrsStvwW"[9] == 'w' && "dDfnrsStvwW"[10] == 'W';
  }

  /** Which characters repeat an atom, which may be escaped, and which stand for themselves. */
  lemma SyntaxByCode(c: char)
    ensures IsRepeat(c) <==> HasCode(c, {0x2A, 0x2B, 0x3F})
    ensures IsValidEscape(c) <==>
            HasCode(c, {0x44, 0x53, 0x57, 0x64, 0x66, 0x6E, 0x72, 0x73, 0x74, 0x76, 0x77}) ||
            IsBetween(c, 0x21, 0x2F) || IsBetween(c, 0x3A, 0x40) || IsBetween(c, 0x5B, 0x60) || IsBetween(c, 0x7B, 0x7E)
    ensures IsPlain(c) <==>
            !HasCode(c, {0x24, 0x28, 0x29, 0x2A, 0x2B, 0x3F, 0x5B, 0x5C, 0x5D, 0x5E, 0x7B, 0x7C, 0x7D})
  {
    PunctuationByCode(c);
    hide IsAsciiPunct;
  }

  // ---- the grammar -----------------------------------------------------------------

  datatype Repeat = Once | Optional | Star | Plus

  datatype Item = Item(escaped: bool, c: char, repeat: Repeat)

  /** ['^'] item* ['$'] */
  datatype Pattern = Pattern(anchorStart: bool, items: seq<Item>, anchorEnd: bool)

  /** Characters that stand for themselves (or, the dot, for almost any). */
  predicate IsPlain(c: char) {
    c != '\\' && c != '^' && c != '$' && !IsInSet(c, "()[]{}|") && !IsRepeat(c)
  }

  predicate WellFormedItem(item: Item) {
    item.c != '\0' && if item.escaped then IsValidEscape(item.c) else IsPlain(item.c)
  }

  ghost predicate WellFormed(items: seq<Item>) {
    forall i :: 0 <= i < |items| ==> WellFormedItem(items[i])
  }

  function RepeatText(repeat: Repeat): string {
    match repeat
    case Once => ""
    case Optional => "?"
    case Star => "*"
    case Plus => "+"
  }

  function ItemText(item: Item): string {
    (if item.escaped then "\\" else "") + [item.c] + RepeatText(item.repeat)
  }

  /** The text of the items, with the end anchor if there is one. */
  function Body(items: seq<Item>, anchorEnd: bool): string {
    if items == [] then (if anchorEnd then "$" else "") else ItemText(items[0]) + Body(items[1..], anchorEnd)
  }

  function Text(p: Pattern): string {
    (if p.anchorStart then "^" else "") + Body(p.items, p.anchorEnd)
  }

  ghost predicate IsValidRegex(regex: string) {
    exists p: Pattern :: WellFormed(p.items) && Text(p) == regex
  }

  // ---- the language ------------------------------------------------------------------

  predicate CountFits(repeat: Repeat, n: nat) {
    match repeat
    case Once => n == 1
    case Optional => n <= 1
    case Star => true
    case Plus => n >= 1
  }

  ghost predicate AllMatch(item: Item, w: string) {
    forall i :: 0 <= i < |w| ==> AtomMatchesChar(item.escaped, item.c, w[i])
  }

  /** The words of an item are the allowed numbers of characters its atom matches,
      and the words of a list of items are their concatenations. */
  ghost predicate Language(items: seq<Item>, w: string) {
    if items == [] then w == ""
    else exists k :: 0 <= k <= |w| &&
                CountFits(items[0].repeat, k) && AllMatch(items[0], w[..k]) && Language(items[1..], w[k..])
  }

  /** A prefix of s is in the language; all of s, if the end is anchored. */
  ghost predicate MatchesHead(items: seq<Item>, anchorEnd: bool, s: string) {
    exists n :: 0 <= n <= |s| && Language(items, s[..n]) && (anchorEnd ==> n == |s|)
  }

  /** A substring of s is in the language, at the ends that are anchored. */
  ghost predicate MatchesSomewhere(p: Pattern, s: string) {
    exists i, j :: 0 <= i <= j <= |s| && Language(p.items, s[i..j]) &&
              (p.anchorStart ==> i == 0) && (p.anchorEnd ==> j == |s|)
  }

  /** Reading off the first item: some number of characters for it, then the rest. */
  lemma HeadByFirstItem(items: seq<Item>, anchorEnd: bool, s: string)
    requires items != []
    ensures MatchesHead(items, anchorEnd, s) <==>
            exists k :: 0 <= k <= |s| && CountFits(items[0].repeat, k) && AllMatch(items[0], s[..k]) &&
                   MatchesHead(items[1..], anchorEnd, s[k..])
  {
    if MatchesHead(items, anchorEnd, s) {
      var n :| 0 <= n <= |s| && Language(items, s[..n]) && (anchorEnd ==> n == |s|);
      var w := s[..n];
      var k :| 0 <= k <= |w| && CountFits(items[0].repeat, k) && AllMatch(items[0], w[..k]) &&
        Language(items[1..], w[k..]);
      assert w[..k] == s[..k] && w[k..] == s[k..][..n - k];
      assert MatchesHead(items[1..], anchorEnd, s[k..]);
    }
    if k :| 0 <= k <= |s| && CountFits(items[0].repeat, k) && AllMatch(items[0], s[..k]) &&
            MatchesHead(items[1..], anchorEnd, s[k..]) {
      var n :| 0 <= n <= |s[k..]| && Language(items[1..], s[k..][..n]) && (anchorEnd ==> n == |s[k..]|);
      var w := s[..k + n];
      assert w[..k] == s[..k] && w[k..] == s[k..][..n];
      assert Language(items, w);
    }
  }

  /** Matching somewhere is matching the head of some suffix. */
  lemma SomewhereByHeads(p: Pattern, s: string)
    ensures MatchesSomewhere(p, s) <==>
            if p.anchorStart then MatchesHead(p.items, p.anchorEnd, s)
            else exists i :: 0 <= i <= |s| && MatchesHead(p.items, p.anchorEnd, s[i..])
  {
    if MatchesSomewhere(p, s) {
      var i, j :| 0 <= i <= j <= |s| && Language(p.items, s[i..j]) &&
                  (p.anchorStart ==> i == 0) && (p.anchorEnd ==> j == |s|);
      assert s[i..j] == s[i..][..j - i];
      assert MatchesHead(p.items, p.anchorEnd, s[i..]);
      assert s[0..] == s;
    }
    assert s[0..] == s;
    if i :| 0 <= i <= |s| && (p.anchorStart ==> i == 0) && MatchesHead(p.items, p.anchorEnd, s[i..]) {
      var n :| 0 <= n <= |s[i..]| && Language(p.items, s[i..][..n]) && (p.anchorEnd ==> n == |s[i..]|);
      assert s[i..][..n] == s[i..i + n];
      assert MatchesSomewhere(p, s);
    }
  }
}
