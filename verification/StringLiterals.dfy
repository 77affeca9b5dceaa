/**
  Printing characters as a C++ string literal, and reading such literals back the way
  section [lex.string] and section [lex.ccon] of ISO C++17 say.
 */
module LiteralReader {
  import opened HexNumerals
  import opened SharedTypes

  predicate IsOctalDigit(c: char) {
    '0' <= c <= '7'
  }

  /** Maximal munch: how many hexadecimal digits the text starts with. */
  function HexRun(t: string): (n: nat)
    ensures n <= |t| && forall i :: 0 <= i < n ==> IsHexDigit(t[i])
  {
    if t == "" || !IsHexDigit(t[0]) then 0 else 1 + HexRun(t[1..])
  }

  /** How many octal digits the text starts with, but no more than `most`. */
  function OctalRun(t: string, most: nat): (n: nat)
    ensures n <= |t| && n <= most && forall i :: 0 <= i < n ==> IsOctalDigit(t[i])
  {
    if most == 0 || t == "" || !IsOctalDigit(t[0]) then 0 else 1 + OctalRun(t[1..], most - 1)
  }

  function OctalValue(t: string): nat
    requires forall i :: 0 <= i < |t| ==> IsOctalDigit(t[i])
  {
    if t == "" then 0
    else
      assert IsOctalDigit(t[|t| - 1]);
      8 * OctalValue(t[..|t| - 1]) + (t[|t| - 1] as int - '0' as int)
  }

  /** The values of digits by their codes, of either case. */
  lemma DigitsByCode(c: char, d: char)
    ensures IsHexDigit(c) <==> 0x30 <= c as int <= 0x39 || 0x41 <= c as int <= 0x46 || 0x61 <= c as int <= 0x66
    ensures IsHexDigit(c) ==>
              HexDigitValue(c) ==
              c as int - (if c as int <= 0x39 then 0x30 else if c as int <= 0x46 then 0x37 else 0x57)
    ensures IsOctalDigit(c) <==> 0x30 <= c as int <= 0x37
    ensures IsOctalDigit(c) && IsOctalDigit(d) ==> OctalValue([c, d]) == 8 * (c as int - 0x30) + (d as int - 0x30)
  {
    if IsOctalDigit(c) && IsOctalDigit(d) {
      assert [c, d][..1] == [c] && [c][..0] == "";
      assert OctalValue([c]) == c as int - 0x30;
    }
  }

  function SimpleEscape(e: char): Option<nat> {
    match e
    case '\'' => Some(0x27)
    case '"' => Some(0x22)
    case '?' => Some(0x3F)
    case '\\' => Some(0x5C)
    case 'a' => Some(7)
    case 'b' => Some(8)
    case 't' => Some(9)
    case 'n' => Some(10)
    case 'v' => Some(11)
    case 'f' => Some(12)
    case 'r' => Some(13)
    case _ => None
  }

  function Prepend(c: nat, rest: Option<seq<nat>>): Option<seq<nat>> {
    match rest
    case None => None
    case Some(chars) => Some([c] + chars)
  }

  /** The rest of a literal after its opening quote, and any literals after it. */
  function ReadBody(prefix: string, t: string): Option<seq<nat>>
    decreases |t|
  {
    if t == "" then None
    else if t[0] == '"' then ReadMore(prefix, t[1..], false)
    else if t[0] == '\n' then None
    else if t[0] != '\\' then Prepend(t[0] as int, ReadBody(prefix, t[1..]))
    else if |t| == 1 then None
    else if SimpleEscape(t[1]).Some? then Prepend(SimpleEscape(t[1]).value, ReadBody(prefix, t[2..]))
    else if IsOctalDigit(t[1]) then
      var n := OctalRun(t[1..], 3);
      Prepend(OctalValue(t[1..][..n]), ReadBody(prefix, t[1 + n..]))
    else if t[1] == 'x' && HexRun(t[2..]) > 0 then
      var n := HexRun(t[2..]);
      Prepend(HexValue(t[2..][..n]), ReadBody(prefix, t[2 + n..]))
    else None
  }

  /** Between literals: white space, and then another literal or the end. A prefix that
      followed the closing quote at once would be a suffix of the literal before
      (section [lex.ext]). */
  function ReadMore(prefix: string, t: string, spaced: bool): Option<seq<nat>>
    decreases |t|
  {
    if t == "" then Some([])
    else if t[0] == ' ' then ReadMore(prefix, t[1..], true)
    else if (spaced || prefix == "") && prefix + ['"'] <= t then ReadBody(prefix, t[|prefix| + 1..])
    else None
  }

  /** Reads adjacent literals with the given encoding prefix as one string. */
  function ReadLiterals(prefix: string, t: string): Option<seq<nat>> {
    if prefix + ['"'] <= t then ReadBody(prefix, t[|prefix| + 1..]) else None
  }
}

module LiteralPrinter {
  import opened HexNumerals
  import opened LiteralReader
  import opened SharedTypes

  datatype CharFormat = AsIs | HexEscape | SpecialEscape

  datatype Printed = Printed(text: string, format: CharFormat)

  predicate IsPrintableAscii(c: nat) {
    0x20 <= c <= 0x7E
  }

  predicate IsXDigit(c: nat) {
    c < 0x80 && IsHexDigit(c as char)
  }

  /** The character after the backslash, for characters with an escape of their own. */
  function SpecialChar(c: nat): Option<char> {
    match c
    case 0 => Some('0')
    case 0x27 => Some('\'')
    case 0x5C => Some('\\')
    case 7 => Some('a')
    case 8 => Some('b')
    case 12 => Some('f')
    case 10 => Some('n')
    case 13 => Some('r')
    case 9 => Some('t')
    case 11 => Some('v')
    case _ => None
  }

  function PrintAsCharLiteral(c: nat): Printed {
    match SpecialChar(c)
    case Some(e) => Printed(['\\', e], SpecialEscape)
    case None =>
      if IsPrintableAscii(c) then Printed([c as char], AsIs)
      else Printed(['\\', 'x'] + Hex(c), HexEscape)
  }

  function PrintAsStringLiteral(c: nat): Printed {
    if c == 0x27 then Printed(['\''], AsIs)
    else if c == 0x22 then Printed(['\\', '"'], SpecialEscape)
    else PrintAsCharLiteral(c)
  }

  /** The printed characters, up to the last closing quote. After a hexadecimal escape,
      a hexadecimal digit starts a new literal. */
  function Segments(prefix: string, chars: seq<nat>, previousHex: bool): string {
    if chars == [] then ['"']
    else
      var p := PrintAsStringLiteral(chars[0]);
      (if previousHex && IsXDigit(chars[0]) then ['"', ' '] + prefix + ['"'] else []) +
      p.text + Segments(prefix, chars[1..], p.format == HexEscape)
  }

  // ---- what is written, character by character -----------------------------------------------

  /** Characters that are neither printable nor have an escape of their own. */
  ghost predicate NeedsHex(c: nat) {
    c > 0x7E || (c < 0x20 && c != 0 && !(7 <= c <= 13))
  }

  /** The codes of hexadecimal digits. */
  ghost predicate IsHexCode(c: nat) {
    0x30 <= c <= 0x39 || 0x41 <= c <= 0x46 || 0x61 <= c <= 0x66
  }

  /** A character inside a literal: a double quote and a backslash after a backslash, other
      printable characters as they are, control characters by their letter or as a number. */
  ghost predicate WrittenAs(c: nat, body: string) {
    if c == 0x22 || c == 0x5C then body == ['\\', c as char]
    else if 0x20 <= c <= 0x7E then body == [c as char]
    else if c == 0 then body == ['\\', '0']
    else if 7 <= c <= 13 then body == ['\\', "abtnvfr"[c - 7]]
    else |body| > 2 && body[..2] == ['\\', 'x'] && IsHexNumeral(body[2..]) && HexValue(body[2..]) == c
  }

  /** A new literal is started exactly where a hexadecimal digit follows such a number. */
  ghost function Break(prefix: string, chars: seq<nat>, i: nat): string
    requires i < |chars|
  {
    if i > 0 && NeedsHex(chars[i - 1]) && IsHexCode(chars[i]) then ['"', ' '] + prefix + ['"'] else ""
  }

  /** The literals for the first n characters, without the last closing quote. */
  ghost function Assembled(prefix: string, chars: seq<nat>, bodies: seq<string>, n: nat): string
    requires n <= |chars| && n <= |bodies|
  {
    if n == 0 then prefix + ['"']
    else Assembled(prefix, chars, bodies, n - 1) + Break(prefix, chars, n - 1) + bodies[n - 1]
  }

  ghost predicate AllWrittenAs(chars: seq<nat>, bodies: seq<string>, n: nat)
    requires n <= |chars|
  {
    |bodies| == n && forall i :: 0 <= i < n ==> WrittenAs(chars[i], bodies[i])
  }

  /** The text is the literals of all characters. */
  ghost predicate IsLiteralOf(prefix: string, chars: seq<nat>, text: string) {
    exists bodies :: AllWrittenAs(chars, bodies, |chars|) && text == Assembled(prefix, chars, bodies, |chars|) + ['"']
  }

  lemma NumberWritten(c: nat)
    ensures var body := ['\\', 'x'] + Hex(c);
            |body| > 2 && body[..2] == ['\\', 'x'] && IsHexNumeral(body[2..]) && HexValue(body[2..]) == c
  {
    HexIsNumeral(c);
    HexOfValue(c);
    assert (['\\', 'x'] + Hex(c))[2..] == Hex(c);
  }

  lemma WrittenByKind(c: nat)
    ensures WrittenAs(c, PrintAsStringLiteral(c).text)
    ensures PrintAsStringLiteral(c).format == HexEscape <==> NeedsHex(c)
  {
    hide HexValue, Hex, IsHexNumeral;
    NumberWritten(c);
  }

  /** A character is written in one way. */
  lemma WrittenInOneWay(c: nat, body: string, body': string)
    requires WrittenAs(c, body) && WrittenAs(c, body')
    ensures body == body'
  {
    if NeedsHex(c) {
      assert body == body[..2] + body[2..] && body' == body'[..2] + body'[2..];
      HexNumeralIsUnique(body[2..], body'[2..]);
    }
  }

  /** So there is one literal of a text. */
  lemma OneLiteralOnly(prefix: string, chars: seq<nat>, text: string, text': string)
    requires IsLiteralOf(prefix, chars, text) && IsLiteralOf(prefix, chars, text')
    ensures text == text'
  {
    var bodies :| AllWrittenAs(chars, bodies, |chars|) && text == Assembled(prefix, chars, bodies, |chars|) + ['"'];
    var bodies' :| AllWrittenAs(chars, bodies', |chars|) && text' == Assembled(prefix, chars, bodies', |chars|) + ['"'];
    forall i | 0 <= i < |chars| ensures bodies[i] == bodies'[i] {
      WrittenInOneWay(chars[i], bodies[i], bodies'[i]);
    }
    assert bodies == bodies';
  }

  lemma HexDigitByCode(c: nat)
    ensures IsXDigit(c) <==> IsHexCode(c)
  {
  }

  /** One of the first n characters is written as a hexadecimal escape. */
  ghost predicate SomeHex(chars: seq<nat>, n: nat)
    requires n <= |chars|
  {
    exists i :: 0 <= i < n && NeedsHex(chars[i])
  }

  lemma SomeHexNext(chars: seq<nat>, n: nat)
    requires n < |chars|
    ensures SomeHex(chars, n + 1) <==> SomeHex(chars, n) || NeedsHex(chars[n])
  {
  }

  lemma AssembledNext(prefix: string, chars: seq<nat>, bodies: seq<string>, body: string)
    requires |bodies| < |chars|
    ensures Assembled(prefix, chars, bodies + [body], |bodies| + 1) ==
            Assembled(prefix, chars, bodies, |bodies|) + Break(prefix, chars, |bodies|) + body
  {
    AssembledPrefix(prefix, chars, bodies, [body], |bodies|);
  }

  lemma {:induction false} AssembledPrefix(prefix: string, chars: seq<nat>, bodies: seq<string>,
                                           more: seq<string>, n: nat)
    requires n <= |bodies| && n <= |chars|
    ensures Assembled(prefix, chars, bodies + more, n) == Assembled(prefix, chars, bodies, n)
  {
    if n > 0 {
      AssembledPrefix(prefix, chars, bodies, more, n - 1);
    }
  }

  /** Characters that need no escape. */
  ghost predicate IsPlainText(chars: seq<nat>) {
    forall i :: 0 <= i < |chars| ==> 0x20 <= chars[i] <= 0x7E && chars[i] != 0x22 && chars[i] != 0x5C
  }

  ghost function AsText(chars: seq<nat>): string
    requires IsPlainText(chars)
  {
    seq(|chars|, i requires 0 <= i < |chars| => chars[i] as char)
  }

  /** They are written as they are. */
  lemma {:induction false} PlainTextIsItself(prefix: string, chars: seq<nat>, bodies: seq<string>, n: nat)
    requires IsPlainText(chars) && AllWrittenAs(chars, bodies, |chars|) && n <= |chars|
    ensures Assembled(prefix, chars, bodies, n) == prefix + ['"'] + AsText(chars)[..n]
  {
    if n > 0 {
      PlainTextIsItself(prefix, chars, bodies, n - 1);
      assert bodies[n - 1] == [AsText(chars)[n - 1]];
      assert AsText(chars)[..n] == AsText(chars)[..n - 1] + [AsText(chars)[n - 1]];
    }
  }

  /** What has been written after some characters, and what is known of the last of them. */
  ghost predicate WrittenSoFar(prefix: string, chars: seq<nat>, bodies: seq<string>, previousHex: bool, text: string) {
    var n := |bodies|;
    && n <= |chars| && AllWrittenAs(chars, bodies, n) && text == Assembled(prefix, chars, bodies, n)
    && (previousHex <==> n > 0 && NeedsHex(chars[n - 1]))
  }

  lemma WriteNext(prefix: string, chars: seq<nat>, bodies: seq<string>, previousHex: bool, text: string)
    requires |bodies| < |chars| && WrittenSoFar(prefix, chars, bodies, previousHex, text)
    ensures var c := chars[|bodies|];
            var p := PrintAsStringLiteral(c);
            var lead := if previousHex && IsXDigit(c) then text + (['"', ' '] + prefix + ['"']) else text;
            WrittenSoFar(prefix, chars, bodies + [p.text], p.format == HexEscape, lead + p.text)
  {
    hide PrintAsStringLiteral, WrittenAs, NeedsHex, Assembled, IsXDigit, IsHexCode;
    var c := chars[|bodies|];
    WrittenByKind(c);
    HexDigitByCode(c);
    AssembledNext(prefix, chars, bodies, PrintAsStringLiteral(c).text);
  }

  lemma AllWritten(prefix: string, chars: seq<nat>, bodies: seq<string>, previousHex: bool, text: string)
    requires |bodies| == |chars| && WrittenSoFar(prefix, chars, bodies, previousHex, text)
    ensures IsLiteralOf(prefix, chars, text + ['"'])
    ensures IsPlainText(chars) ==> text + ['"'] == prefix + ['"'] + AsText(chars) + ['"'] && !SomeHex(chars, |chars|)
  {
    if IsPlainText(chars) {
      PlainTextIsItself(prefix, chars, bodies, |chars|);
      assert AsText(chars)[..|chars|] == AsText(chars);
    }
  }

  method PrintCharsAsStringTo(prefix: string, chars: seq<nat>) returns (text: string, format: CharFormat)
    ensures text == prefix + ['"'] + Segments(prefix, chars, false)
    ensures IsLiteralOf(prefix, chars, text)
    ensures format == if exists i :: 0 <= i < |chars| && NeedsHex(chars[i]) then HexEscape else AsIs
    ensures IsPlainText(chars) ==> text == prefix + ['"'] + AsText(chars) + ['"'] && format == AsIs
  {
    text := prefix + ['"'];
    var isPreviousHex := false;
    format := AsIs;
    assert chars[0..] == chars;
    ghost var bodies: seq<string> := [];
    assert PrintedUpTo(prefix, chars, 0, isPreviousHex, text);
    assert WrittenSoFar(prefix, chars, bodies, isPreviousHex, text);
    assert SomeHex(chars, |chars|) <==> exists i :: 0 <= i < |chars| && NeedsHex(chars[i]);
    assert !SomeHex(chars, 0);
    hide PrintAsStringLiteral, PrintedUpTo, WrittenSoFar, IsXDigit, Segments, SomeHex, NeedsHex, IsLiteralOf;
    for index := 0 to |chars|
      invariant |bodies| == index && WrittenSoFar(prefix, chars, bodies, isPreviousHex, text)
      invariant PrintedUpTo(prefix, chars, index, isPreviousHex, text)
      invariant format == if SomeHex(chars, index) then HexEscape else AsIs
    {
      SegmentsStep(prefix, chars, index, isPreviousHex, text);
      WriteNext(prefix, chars, bodies, isPreviousHex, text);
      SomeHexNext(chars, index);
      var cur := chars[index];
      WrittenByKind(cur);
      if isPreviousHex && IsXDigit(cur) {
        text := text + (['"', ' '] + prefix + ['"']);
      }
      var p := PrintAsStringLiteral(cur);
      text := text + p.text;
      bodies := bodies + [p.text];
      isPreviousHex := p.format == HexEscape;
      if isPreviousHex {
        format := HexEscape;
      }
    }
    AllPrinted(prefix, chars, isPreviousHex, text);
    AllWritten(prefix, chars, bodies, isPreviousHex, text);
    text := text + ['"'];
  }

  /** The text holds the first characters and lacks the others. */
  ghost predicate PrintedUpTo(prefix: string, chars: seq<nat>, index: nat, previousHex: bool, text: string) {
    && index <= |chars|
    && prefix + ['"'] + Segments(prefix, chars, false) == text + Segments(prefix, chars[index..], previousHex)
  }

  lemma AllPrinted(prefix: string, chars: seq<nat>, previousHex: bool, text: string)
    requires PrintedUpTo(prefix, chars, |chars|, previousHex, text)
    ensures text + ['"'] == prefix + ['"'] + Segments(prefix, chars, false)
  {
  }

  lemma SegmentsStep(prefix: string, chars: seq<nat>, index: nat, previousHex: bool, text: string)
    requires index < |chars| && PrintedUpTo(prefix, chars, index, previousHex, text)
    ensures var p := PrintAsStringLiteral(chars[index]);
            var lead := if previousHex && IsXDigit(chars[index]) then text + (['"', ' '] + prefix + ['"']) else text;
            PrintedUpTo(prefix, chars, index + 1, p.format == HexEscape, lead + p.text)
  {
    hide PrintAsStringLiteral, IsXDigit;
    assert chars[index..][1..] == chars[index + 1..];
  }

  // ---- reading it back --------------------------------------------------------------------

  predicate IsOctalCode(c: nat) {
    '0' as int <= c <= '7' as int
  }

  /** How many octal digits the characters start with, but no more than `most`. */
  function OctalChars(chars: seq<nat>, most: nat): (n: nat)
    ensures n <= |chars| && n <= most && forall i :: 0 <= i < n ==> IsOctalCode(chars[i])
  {
    if most == 0 || chars == [] || !IsOctalCode(chars[0]) then 0 else 1 + OctalChars(chars[1..], most - 1)
  }

  function OctalText(chars: seq<nat>): (t: string)
    requires forall i :: 0 <= i < |chars| ==> IsOctalCode(chars[i])
    ensures |t| == |chars| && forall i :: 0 <= i < |t| ==> t[i] as int == chars[i] && IsOctalDigit(t[i])
  {
    seq(|chars|, i requires 0 <= i < |chars| && IsOctalCode(chars[i]) => chars[i] as char)
  }

  /** What a reader makes of the printed characters: up to two octal digits after a NUL
      are taken to belong to its escape. */
  function ReadBack(chars: seq<nat>): seq<nat>
    decreases |chars|
  {
    if chars == [] then []
    else if chars[0] == 0 then
      var n := OctalChars(chars[1..], 2);
      [OctalValue(['0'] + OctalText(chars[1..][..n]))] + ReadBack(chars[1 + n..])
    else [chars[0]] + ReadBack(chars[1..])
  }

  /** The encoding prefixes. */
  predicate IsEncodingPrefix(prefix: string) {
    prefix == "" || prefix == "u8" || prefix == "u" || prefix == "U" || prefix == "L"
  }

  /** What the printed characters start with. */
  lemma SegmentsStart(prefix: string, chars: seq<nat>, previousHex: bool)
    ensures var t := Segments(prefix, chars, previousHex);
            && t != "" && (previousHex ==> !IsHexDigit(t[0]))
            && (!previousHex ==>
                  if chars != [] && IsOctalCode(chars[0])
                  then t == [chars[0] as char] + Segments(prefix, chars[1..], false)
                  else !IsOctalDigit(t[0]))
  {
    var t := Segments(prefix, chars, previousHex);
    if chars != [] && !(previousHex && IsXDigit(chars[0])) {
      var p := PrintAsStringLiteral(chars[0]);
      assert t == p.text + Segments(prefix, chars[1..], p.format == HexEscape);
      assert t[0] == p.text[0];
    }
  }

  lemma {:induction false} HexRunEnds(digits: string, t: string)
    requires forall i :: 0 <= i < |digits| ==> IsHexDigit(digits[i])
    requires t == "" || !IsHexDigit(t[0])
    ensures HexRun(digits + t) == |digits|
  {
    if digits == "" {
      assert digits + t == t;
    } else {
      assert (digits + t)[1..] == digits[1..] + t;
      HexRunEnds(digits[1..], t);
    }
  }

  /** Reading one printed character other than NUL. */
  lemma CharReadBack(prefix: string, c: nat, t: string)
    requires c > 0 && c < 0x1_0000_0000
    requires PrintAsStringLiteral(c).format == HexEscape ==> t == "" || !IsHexDigit(t[0])
    ensures ReadBody(prefix, PrintAsStringLiteral(c).text + t) == Prepend(c, ReadBody(prefix, t))
  {
    var p := PrintAsStringLiteral(c);
    var whole := p.text + t;
    match p.format {
      case AsIs =>
        assert whole[1..] == t;
      case SpecialEscape =>
        assert whole[2..] == t;
      case HexEscape =>
        HexCharReadBack(prefix, c, t);
    }
  }

  lemma HexCharReadBack(prefix: string, c: nat, t: string)
    requires t == "" || !IsHexDigit(t[0])
    ensures ReadBody(prefix, ['\\', 'x'] + Hex(c) + t) == Prepend(c, ReadBody(prefix, t))
  {
    var whole := ['\\', 'x'] + Hex(c) + t;
    assert whole[2..] == Hex(c) + t;
    HexRunEnds(Hex(c), t);
    assert whole[2..][..|Hex(c)|] == Hex(c);
    assert whole[2 + |Hex(c)|..] == t;
    HexOfValue(c);
  }

  lemma {:induction false} OctalCharsShow(prefix: string, chars: seq<nat>, most: nat)
    ensures var t, n := Segments(prefix, chars, false), OctalChars(chars, most);
            && OctalRun(t, most) == n
            && t[..n] == OctalText(chars[..n])
            && t[n..] == Segments(prefix, chars[n..], false)
    decreases most
  {
    SegmentsStart(prefix, chars, false);
    if most > 0 && chars != [] && IsOctalCode(chars[0]) {
      OctalCharsShow(prefix, chars[1..], most - 1);
      ShiftByOne(Segments(prefix, chars, false), Segments(prefix, chars[1..], false), chars,
        OctalChars(chars[1..], most - 1));
    }
  }

  lemma ShiftByOne(t: string, t': string, chars: seq<nat>, n: nat)
    requires n < |chars| && IsOctalCode(chars[0]) && forall i :: 0 <= i <= n ==> IsOctalCode(chars[i])
    requires t == [chars[0] as char] + t' && n <= |t'| && t'[..n] == OctalText(chars[1..][..n])
    ensures t[..n + 1] == OctalText(chars[..n + 1])
    ensures t[1..] == t' && t[n + 1..] == t'[n..] && chars[n + 1..] == chars[1..][n..]
  {
    assert forall i :: 0 <= i < n ==> t[i + 1] == t'[..n][i];
  }

  /** Reading an octal escape that starts with a zero. */
  lemma OctalReadBack(prefix: string, t: string)
    ensures var n := OctalRun(t, 2);
            ReadBody(prefix, ['\\', '0'] + t) == Prepend(OctalValue(['0'] + t[..n]), ReadBody(prefix, t[n..]))
  {
    var whole, n := ['\\', '0'] + t, OctalRun(t, 2);
    assert whole[1..] == ['0'] + t && (['0'] + t)[1..] == t;
    assert OctalRun(whole[1..], 3) == 1 + n;
    assert whole[1..][..1 + n] == ['0'] + t[..n];
    assert whole[2 + n..] == t[n..];
  }

  /** Reading a printed NUL. */
  lemma NulReadBack(prefix: string, rest: seq<nat>)
    ensures var n := OctalChars(rest, 2);
            ReadBody(prefix, ['\\', '0'] + Segments(prefix, rest, false)) ==
            Prepend(OctalValue(['0'] + OctalText(rest[..n])), ReadBody(prefix, Segments(prefix, rest[n..], false)))
  {
    OctalCharsShow(prefix, rest, 2);
    OctalReadBack(prefix, Segments(prefix, rest, false));
  }

  /** Skipping from one literal to the next. */
  lemma NextLiteral(prefix: string, t: string)
    requires IsEncodingPrefix(prefix)
    ensures ReadBody(prefix, ['"', ' '] + prefix + ['"'] + t) == ReadBody(prefix, t)
  {
    var open := prefix + ['"'];
    var whole := ['"', ' '] + prefix + ['"'] + t;
    assert whole[0] == '"' && whole[1..] == [' '] + (open + t);
    assert ([' '] + (open + t))[1..] == open + t;
    assert (open + t)[0] == open[0] != ' ';
    assert open <= open + t && (open + t)[|open|..] == t;
    assert ReadMore(prefix, open + t, true) == ReadBody(prefix, t);
  }

  lemma SegmentsBroken(prefix: string, chars: seq<nat>)
    requires chars != [] && IsXDigit(chars[0])
    ensures Segments(prefix, chars, true) == ['"', ' '] + prefix + ['"'] + Segments(prefix, chars, false)
  {
    var p := PrintAsStringLiteral(chars[0]);
    var rest := Segments(prefix, chars[1..], p.format == HexEscape);
    assert Segments(prefix, chars, false) == p.text + rest;
    assert (['"', ' '] + prefix + ['"']) + p.text + rest == (['"', ' '] + prefix + ['"']) + (p.text + rest);
  }

  lemma SegmentsUnbroken(prefix: string, chars: seq<nat>, previousHex: bool)
    requires chars != [] && !(previousHex && IsXDigit(chars[0]))
    ensures var p := PrintAsStringLiteral(chars[0]);
            Segments(prefix, chars, previousHex) == p.text + Segments(prefix, chars[1..], p.format == HexEscape)
  {
    var p := PrintAsStringLiteral(chars[0]);
    assert [] + p.text == p.text;
  }

  /** Reading what was printed, in general. */
  lemma {:induction false} PrintedReadsBack(prefix: string, chars: seq<nat>, previousHex: bool)
    requires IsEncodingPrefix(prefix) && forall i :: 0 <= i < |chars| ==> chars[i] < 0x1_0000_0000
    ensures ReadBody(prefix, Segments(prefix, chars, previousHex)) == Some(ReadBack(chars))
    decreases |chars|, previousHex
  {
    if chars == [] {
      return;
    }
    hide Segments, ReadBody, IsXDigit, IsHexDigit, OctalValue, OctalText;
    if previousHex && IsXDigit(chars[0]) {
      SegmentsBroken(prefix, chars);
      NextLiteral(prefix, Segments(prefix, chars, false));
      PrintedReadsBack(prefix, chars, false);
      return;
    }
    var hex, rest := PrintAsStringLiteral(chars[0]).format == HexEscape, chars[1..];
    SegmentsUnbroken(prefix, chars, previousHex);
    if chars[0] == 0 {
      var n := OctalChars(rest, 2);
      NulReadBack(prefix, rest);
      PrintedReadsBack(prefix, rest[n..], false);
      assert rest[n..] == chars[1 + n..];
      return;
    }
    hide PrintAsStringLiteral;
    SegmentsStart(prefix, rest, hex);
    CharReadBack(prefix, chars[0], Segments(prefix, rest, hex));
    PrintedReadsBack(prefix, rest, hex);
  }

  /** A NUL that is directly followed by an octal digit. */
  ghost predicate NulBeforeOctalDigit(chars: seq<nat>) {
    exists i :: 0 <= i < |chars| - 1 && chars[i] == 0 && IsOctalCode(chars[i + 1])
  }

  lemma {:induction false} ReadBackIsShorter(chars: seq<nat>)
    ensures |ReadBack(chars)| <= |chars|
    ensures NulBeforeOctalDigit(chars) ==> |ReadBack(chars)| < |chars|
    ensures !NulBeforeOctalDigit(chars) ==> ReadBack(chars) == chars
    decreases |chars|
  {
    if chars != [] {
      var n := if chars[0] == 0 then OctalChars(chars[1..], 2) else 0;
      ReadBackIsShorter(chars[1 + n..]);
      assert n > 0 ==> chars[0] == 0 && IsOctalCode(chars[1]);
      if NulBeforeOctalDigit(chars) && n == 0 {
        var i :| 0 <= i < |chars| - 1 && chars[i] == 0 && IsOctalCode(chars[i + 1]);
        assert chars[1..][i - 1] == 0 && IsOctalCode(chars[1..][i]);
      }
      if NulBeforeOctalDigit(chars[1..]) {
        var i :| 0 <= i < |chars[1..]| - 1 && chars[1..][i] == 0 && IsOctalCode(chars[1..][i + 1]);
        assert chars[i + 1] == 0 && IsOctalCode(chars[i + 2]);
      }
      if !NulBeforeOctalDigit(chars) {
        assert n == 0;
        assert OctalValue(['0']) == 0 by { assert ['0'][..0] == ""; }
        assert ['0'] + OctalText(chars[1..][..0]) == ['0'];
        assert chars == [chars[0]] + chars[1..];
      }
    }
  }

  /** The printed literal denotes the original characters exactly when no NUL in them is
      directly followed by an octal digit. */
  lemma PrintedLiteralDenotes(prefix: string, chars: seq<nat>)
    requires IsEncodingPrefix(prefix) && forall i :: 0 <= i < |chars| ==> chars[i] < 0x1_0000_0000
    ensures ReadLiterals(prefix, prefix + ['"'] + Segments(prefix, chars, false)) == Some(chars)
            <==> !NulBeforeOctalDigit(chars)
  {
    var open, t := prefix + ['"'], Segments(prefix, chars, false);
    assert (open + t)[|open|..] == t;
    PrintedReadsBack(prefix, chars, false);
    ReadBackIsShorter(chars);
  }

  /** A NUL before a digit is printed as an escape that swallows the digit. */
  lemma SwallowedDigit()
    ensures PrintAsStringLiteral(0).text + PrintAsStringLiteral('1' as int).text == ['\\', '0', '1']
    ensures ReadBack([0, '1' as int]) == [1]
  {
    assert [0, '1' as int][1..] == ['1' as int];
    assert OctalChars(['1' as int], 2) == 1;
    assert ['0'] + OctalText(['1' as int][..1]) == ['0', '1'];
    assert ['0', '1'][..1] == ['0'] && ['0'][..0] == "";
    assert OctalValue(['0', '1']) == 1;
  }
}
