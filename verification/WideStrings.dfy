/**
  CodePointToUtf8 and WideStringToUtf8: what they write, when it is valid UTF-8, and
  that text in UTF-16 or UTF-32 comes out as the same text in UTF-8.
 */
module WideStrings {
  import opened HexNumerals
  import opened Utf8
  import opened SharedTypes

  const MAX_CODE_POINT_1 := 0x7F
  const MAX_CODE_POINT_2 := 0x7FF
  const MAX_CODE_POINT_3 := 0xFFFF
  const MAX_CODE_POINT_4 := 0x1F_FFFF

  // ---- one code point -------------------------------------------------------------------

  function Ascii(text: string): (s: seq<Byte>)
    requires forall i :: 0 <= i < |text| ==> 0 < text[i] as int <= 0x7F
    ensures |s| == |text| && forall i :: 0 <= i < |s| ==> 0 < s[i] <= 0x7F
  {
    seq(|text|, i requires 0 <= i < |text| => text[i] as int)
  }

  /** The text written in place of a number too large for four bytes. */
  function InvalidText(codePoint: nat): (text: seq<Byte>)
    ensures forall i :: 0 <= i < |text| ==> 0 < text[i] <= 0x7F
  {
    assert forall i :: 0 <= i < |Hex(codePoint)| ==> IsHexDigit(Hex(codePoint)[i]);
    Ascii("(Invalid Unicode 0x") + Ascii(Hex(codePoint)) + Ascii(")")
  }

  /** The numeral stands between fixed words. */
  lemma InvalidTextIs(codePoint: nat)
    ensures exists numeral: string ::
              && IsHexNumeral(numeral) && HexValue(numeral) == codePoint
              && InvalidText(codePoint) == Ascii("(Invalid Unicode 0x") + Ascii(numeral) + Ascii(")")
  {
    HexIsNumeral(codePoint);
    HexOfValue(codePoint);
    hide IsHexNumeral, HexValue, Hex;
    assert InvalidText(codePoint) == Ascii("(Invalid Unicode 0x") + Ascii(Hex(codePoint)) + Ascii(")");
  }

  /** The bytes of a C string: those before the first terminator. */
  function BeforeNul(s: seq<Byte>): (t: seq<Byte>)
    ensures t <= s
  {
    if s == [] || s[0] == 0 then [] else [s[0]] + BeforeNul(s[1..])
  }

  lemma {:induction false} BeforeNulIs(s: seq<Byte>, n: nat)
    requires n < |s| && s[n] == 0 && forall i :: 0 <= i < n ==> s[i] != 0
    ensures BeforeNul(s) == s[..n]
  {
    if n > 0 {
      BeforeNulIs(s[1..], n - 1);
      assert s[..n] == [s[0]] + s[1..][..n - 1];
    }
  }

  /** Chops off the n lowest bits: returns them, and what is left. */
  method ChopLowBits(bits: nat, n: nat) returns (rest: nat, lowBits: nat)
    requires n == 6
    ensures rest == bits / 0x40 && lowBits == bits % 0x40
  {
    lowBits := bits % 0x40;
    rest := bits / 0x40;
  }

  /** Writes the shortest form of every number up to 21 bits; nothing for 0, whose one
      byte ends the string. */
  method CodePointToUtf8(codePoint: nat) returns (text: seq<Byte>)
    requires codePoint < 0x1_0000_0000
    ensures codePoint == 0 ==> text == []
    ensures 0 < codePoint <= MAX_CODE_POINT_4 ==> Encodes(text, codePoint)
    ensures codePoint > MAX_CODE_POINT_4 ==> text == InvalidText(codePoint)
  {
    if codePoint > MAX_CODE_POINT_4 {
      text := InvalidText(codePoint);
    } else {
      text := PackCodePoint(codePoint);
    }
  }

  /** Fills a five-byte buffer from the low end of the number. */
  method PackCodePoint(codePoint: nat) returns (text: seq<Byte>)
    requires codePoint <= MAX_CODE_POINT_4
    ensures if codePoint == 0 then text == [] else Encodes(text, codePoint)
  {
    var str := new Byte[5];
    var rest, low := codePoint, 0;
    ghost var n: nat;
    if codePoint <= MAX_CODE_POINT_1 {
      str[1] := 0;
      str[0] := rest;
      n := if codePoint == 0 then 0 else 1;
    } else if codePoint <= MAX_CODE_POINT_2 {
      str[2] := 0;
      rest, low := ChopLowBits(rest, 6);
      str[1] := 0x80 + low;
      str[0] := 0xC0 + rest;
      n := 2;
    } else if codePoint <= MAX_CODE_POINT_3 {
      str[3] := 0;
      rest, low := ChopLowBits(rest, 6);
      str[2] := 0x80 + low;
      rest, low := ChopLowBits(rest, 6);
      str[1] := 0x80 + low;
      str[0] := 0xE0 + rest;
      n := 3;
    } else {
      str[4] := 0;
      rest, low := ChopLowBits(rest, 6);
      str[3] := 0x80 + low;
      rest, low := ChopLowBits(rest, 6);
      str[2] := 0x80 + low;
      rest, low := ChopLowBits(rest, 6);
      str[1] := 0x80 + low;
      str[0] := 0xF0 + rest;
      n := 4;
    }
    BeforeNulIs(str[..], n);
    text := BeforeNul(str[..]);
  }

  /** What CodePointToUtf8 writes, which its contract determines. */
  ghost predicate Writes(codePoint: nat, text: seq<Byte>) {
    if codePoint == 0 then text == []
    else if codePoint <= MAX_CODE_POINT_4 then Encodes(text, codePoint)
    else text == InvalidText(codePoint)
  }

  lemma {:induction false} AsciiFirst(s: seq<Byte>, rest: seq<Byte>)
    requires forall i :: 0 <= i < |s| ==> s[i] <= 0x7F
    ensures IsText(s + rest) <==> IsText(rest)
    decreases |s|
  {
    if s == [] {
      assert s + rest == rest;
    } else {
      assert (s + rest)[..1] == [s[0]] && (s + rest)[1..] == s[1..] + rest;
      TextByPieces(s + rest, 1, s[0]);
      AsciiFirst(s[1..], rest);
    }
  }

  /** Neither a surrogate nor one of the numbers above the Unicode range that still fit
      four bytes. */
  predicate WrittenAsText(codePoint: nat) {
    !(0xD800 <= codePoint <= 0xDFFF) && !(0x11_0000 <= codePoint <= 0x1F_FFFF)
  }

  lemma WrittenFirst(codePoint: nat, piece: seq<Byte>, rest: seq<Byte>)
    requires Writes(codePoint, piece)
    ensures IsText(piece + rest) <==> WrittenAsText(codePoint) && IsText(rest)
  {
    if codePoint == 0 {
      assert piece + rest == rest;
    } else if codePoint <= MAX_CODE_POINT_4 {
      assert (piece + rest)[..|piece|] == piece && (piece + rest)[|piece|..] == rest;
      TextByPieces(piece + rest, |piece|, codePoint);
    } else {
      AsciiFirst(piece, rest);
    }
  }

  /** The output is valid UTF-8 except for surrogates and for the numbers above the
      Unicode range that still fit four bytes. */
  lemma ValidOutput(codePoint: nat, text: seq<Byte>)
    requires Writes(codePoint, text)
    ensures IsText(text) <==> WrittenAsText(codePoint)
  {
    assert text + [] == text;
    WrittenFirst(codePoint, text, []);
    EmptyIsText();
  }

  /** The first number above the Unicode range is encoded, although the documentation has
      only the invalid text for it. */
  lemma AboveUnicode(text: seq<Byte>)
    requires Writes(0x11_0000, text)
    ensures text == [0xF4, 0x90, 0x80, 0x80] && !IsText(text)
  {
    ValidOutput(0x11_0000, text);
  }

  // ---- wide strings ---------------------------------------------------------------------------

  datatype WideChar = TwoBytes | FourBytes {
    function Limit(): nat {
      match this
      case TwoBytes => 0x1_0000
      case FourBytes => 0x1_0000_0000
    }
  }

  ghost predicate IsWide(wide: WideChar, str: seq<nat>) {
    forall i :: 0 <= i < |str| ==> str[i] < wide.Limit()
  }

  /** The six highest bits of the two units mark a high and a low surrogate. */
  predicate IsUtf16SurrogatePair(wide: WideChar, first: nat, second: nat) {
    wide.TwoBytes? && first / 0x400 * 0x400 == 0xD800 && second / 0x400 * 0x400 == 0xDC00
  }

  function CreateCodePointFromUtf16SurrogatePair(wide: WideChar, first: nat, second: nat): nat {
    if wide.TwoBytes? then (first % 0x400) * 0x400 + second % 0x400 + 0x1_0000 else first
  }

  /** The code points of a wide string up to its terminator; unpaired surrogates count
      as code points of their own. */
  function CodePoints(wide: WideChar, str: seq<nat>): seq<nat> {
    if str == [] || str[0] == 0 then []
    else if |str| > 1 && IsUtf16SurrogatePair(wide, str[0], str[1]) then
      [CreateCodePointFromUtf16SurrogatePair(wide, str[0], str[1])] + CodePoints(wide, str[2..])
    else [str[0]] + CodePoints(wide, str[1..])
  }

  /** Of two units of two bytes, a high and a low surrogate make one code point; any other
      first unit is one of its own, an unpaired surrogate too. */
  lemma UnitsByCode(first: nat, second: nat, rest: seq<nat>)
    requires 0 < first < 0x1_0000 && second < 0x1_0000
    ensures CodePoints(TwoBytes, [first, second] + rest) ==
            if 0xD800 <= first <= 0xDBFF && 0xDC00 <= second <= 0xDFFF
            then [0x1_0000 + 0x400 * (first - 0xD800) + (second - 0xDC00)] + CodePoints(TwoBytes, rest)
            else [first] + CodePoints(TwoBytes, [second] + rest)
  {
    var str := [first, second] + rest;
    assert str[2..] == rest && str[1..] == [second] + rest;
    SurrogatesByCode(first, second);
    hide IsUtf16SurrogatePair, CreateCodePointFromUtf16SurrogatePair;
  }

  lemma SurrogatesByCode(first: nat, second: nat)
    requires first < 0x1_0000 && second < 0x1_0000
    ensures IsUtf16SurrogatePair(TwoBytes, first, second) <==>
            0xD800 <= first <= 0xDBFF && 0xDC00 <= second <= 0xDFFF
    ensures IsUtf16SurrogatePair(TwoBytes, first, second) ==>
              CreateCodePointFromUtf16SurrogatePair(TwoBytes, first, second) ==
              0x1_0000 + 0x400 * (first - 0xD800) + (second - 0xDC00)
  {
  }

  /** Units of four bytes are code points as they are, up to the terminator. */
  lemma {:induction false} WideUnitsByCode(str: seq<nat>)
    requires forall i :: 0 <= i < |str| ==> str[i] != 0
    ensures CodePoints(FourBytes, str) == str && CodePoints(FourBytes, str + [0]) == str
    ensures CodePoints(TwoBytes, [0] + str) == CodePoints(FourBytes, [0] + str) == []
  {
    if str != [] {
      WideUnitsByCode(str[1..]);
      assert str == [str[0]] + str[1..] && (str + [0])[1..] == str[1..] + [0];
    }
  }

  /** A high surrogate without a low one after it. */
  lemma UnpairedSurrogate()
    ensures CodePoints(TwoBytes, [0xD800, 'M' as int]) == [0xD800, 'M' as int]
  {
    assert [0xD800, 'M' as int] == [0xD800, 'M' as int] + [];
    UnitsByCode(0xD800, 'M' as int, []);
    assert ['M' as int] + [] == ['M' as int];
    assert CodePoints(TwoBytes, ['M' as int]) == ['M' as int] + CodePoints(TwoBytes, []);
  }

  function Concat(pieces: seq<seq<Byte>>): seq<Byte> {
    if pieces == [] then [] else pieces[0] + Concat(pieces[1..])
  }

  lemma {:induction false} ConcatAppend(pieces: seq<seq<Byte>>, piece: seq<Byte>)
    ensures Concat(pieces + [piece]) == Concat(pieces) + piece
  {
    if pieces == [] {
      assert Concat([piece]) == piece + Concat([]);
    } else {
      assert (pieces + [piece])[1..] == pieces[1..] + [piece];
      ConcatAppend(pieces[1..], piece);
    }
  }

  /** The pieces are what is written for the code points. */
  ghost predicate WritesEach(codePoints: seq<nat>, pieces: seq<seq<Byte>>) {
    |pieces| == |codePoints| && forall i :: 0 <= i < |pieces| ==> Writes(codePoints[i], pieces[i])
  }

  /** The text is what is written for the code points, one after the other. */
  ghost predicate WritesAll(codePoints: seq<nat>, text: seq<Byte>) {
    exists pieces :: WritesEach(codePoints, pieces) && text == Concat(pieces)
  }

  /** The text is valid UTF-8 exactly if every code point is written as such. */
  lemma {:induction false} ValidConcat(codePoints: seq<nat>, pieces: seq<seq<Byte>>)
    requires WritesEach(codePoints, pieces)
    ensures IsText(Concat(pieces)) <==> forall c :: c in codePoints ==> WrittenAsText(c)
    decreases |pieces|
  {
    if pieces == [] {
      EmptyIsText();
    } else {
      assert Writes(codePoints[0], pieces[0]);
      assert WritesEach(codePoints[1..], pieces[1..]);
      ValidConcat(codePoints[1..], pieces[1..]);
      WrittenFirst(codePoints[0], pieces[0], Concat(pieces[1..]));
      assert forall c :: c in codePoints <==> c == codePoints[0] || c in codePoints[1..];
    }
  }

  /** The number of units before the terminator. */
  method WideLength(str: seq<nat>) returns (n: nat)
    ensures n <= |str| && (n < |str| ==> str[n] == 0) && forall i :: 0 <= i < n ==> str[i] != 0
  {
    n := 0;
    while n < |str| && str[n] != 0
      invariant n <= |str| && forall i :: 0 <= i < n ==> str[i] != 0
    {
      n := n + 1;
    }
  }

  /** How much of the string is converted: all of it for -1, nothing for any other
      negative number. */
  function Limited(str: seq<nat>, numChars: int): seq<nat>
    requires numChars <= |str|
  {
    if numChars == -1 then str else if numChars < 0 then [] else str[..numChars]
  }

  method WideStringToUtf8(wide: WideChar, str: seq<nat>, numChars: int) returns (text: seq<Byte>)
    requires IsWide(wide, str) && numChars <= |str|
    ensures WritesAll(CodePoints(wide, Limited(str, numChars)), text)
    ensures IsText(text) <==> forall c :: c in CodePoints(wide, Limited(str, numChars)) ==> WrittenAsText(c)
  {
    var num := numChars;
    if num == -1 {
      num := WideLength(str);
      CodePointsUpToNul(wide, str, num);
    }
    text := ConvertUnits(wide, if num < 0 then [] else str[..num]);
    ghost var codePoints := CodePoints(wide, Limited(str, numChars));
    ghost var pieces :| WritesEach(codePoints, pieces) && text == Concat(pieces);
    ValidConcat(codePoints, pieces);
  }

  lemma NextCodePoint(wide: WideChar, str: seq<nat>, i: nat)
    requires i < |str| && str[i] != 0
    ensures CodePoints(wide, str[i..]) ==
            if i + 1 < |str| && IsUtf16SurrogatePair(wide, str[i], str[i + 1])
            then [CreateCodePointFromUtf16SurrogatePair(wide, str[i], str[i + 1])] + CodePoints(wide, str[i + 2..])
            else [str[i]] + CodePoints(wide, str[i + 1..])
  {
    assert str[i..][1..] == str[i + 1..];
    if i + 1 < |str| {
      assert str[i..][2..] == str[i + 2..];
    }
  }

  lemma NextOf(all: seq<nat>, n: nat, codePoint: nat, rest: seq<nat>)
    requires n <= |all| && all[n..] == [codePoint] + rest
    ensures n < |all| && all[n] == codePoint && all[..n + 1] == all[..n] + [codePoint] && all[n + 1..] == rest
  {
    assert all[n] == all[n..][0] && all[n + 1..] == all[n..][1..];
  }

  /** The conversion loop; unit i of the string is unit i of the part to be converted. */
  method ConvertUnits(wide: WideChar, str: seq<nat>) returns (text: seq<Byte>)
    requires IsWide(wide, str)
    ensures WritesAll(CodePoints(wide, str), text)
  {
    text := [];
    ghost var pieces: seq<seq<Byte>> := [];
    ghost var all := CodePoints(wide, str);
    var i: nat := 0;
    assert str[0..] == str;
    hide Writes;
    while i < |str| && str[i] != 0
      invariant i <= |str| && |pieces| <= |all|
      invariant WritesEach(all[..|pieces|], pieces) && text == Concat(pieces)
      invariant CodePoints(wide, str[i..]) == all[|pieces|..]
      decreases |str| - i
    {
      NextCodePoint(wide, str, i);
      ghost var n := |pieces|;
      var codePoint;
      if i + 1 < |str| && IsUtf16SurrogatePair(wide, str[i], str[i + 1]) {
        codePoint := CreateCodePointFromUtf16SurrogatePair(wide, str[i], str[i + 1]);
        i := i + 2;
      } else {
        codePoint := str[i];
        i := i + 1;
      }
      assert all[n..] == [codePoint] + CodePoints(wide, str[i..]);
      var piece := CodePointToUtf8(codePoint);
      ConcatAppend(pieces, piece);
      NextOf(all, n, codePoint, CodePoints(wide, str[i..]));
      pieces := pieces + [piece];
      text := text + piece;
    }
    assert all[..|pieces|] == all;
  }

  lemma {:induction false} CodePointsUpToNul(wide: WideChar, str: seq<nat>, n: nat)
    requires n <= |str| && (n < |str| ==> str[n] == 0) && forall i :: 0 <= i < n ==> str[i] != 0
    ensures CodePoints(wide, str[..n]) == CodePoints(wide, str)
    decreases n
  {
    if n == |str| {
      assert str[..n] == str;
    } else if n > 1 && IsUtf16SurrogatePair(wide, str[0], str[1]) {
      CodePointsUpToNul(wide, str[2..], n - 2);
      assert str[..n][2..] == str[2..][..n - 2];
    } else if n > 0 {
      CodePointsUpToNul(wide, str[1..], n - 1);
      assert str[..n][1..] == str[1..][..n - 1];
    }
  }

  // ---- the round trip -----------------------------------------------------------------------

  ghost predicate AreScalars(scalars: seq<nat>) {
    forall i :: 0 <= i < |scalars| ==> IsScalar(scalars[i]) && scalars[i] != 0
  }

  /** The wide form of scalar values: UTF-16 (section 2.1 of RFC 2781) or UTF-32. */
  function ToWide(wide: WideChar, scalars: seq<nat>): seq<nat> {
    if scalars == [] then []
    else
      var c := scalars[0];
      (if wide.TwoBytes? && c >= 0x1_0000 then
         [0xD800 + (c - 0x1_0000) / 0x400, 0xDC00 + (c - 0x1_0000) % 0x400]
       else [c]) + ToWide(wide, scalars[1..])
  }

  lemma {:induction false} WideCodePoints(wide: WideChar, scalars: seq<nat>)
    requires AreScalars(scalars)
    ensures IsWide(wide, ToWide(wide, scalars))
    ensures CodePoints(wide, ToWide(wide, scalars)) == scalars
  {
    if scalars != [] {
      var c, rest := scalars[0], ToWide(wide, scalars[1..]);
      WideCodePoints(wide, scalars[1..]);
      var units := ToWide(wide, scalars);
      if wide.TwoBytes? && c >= 0x1_0000 {
        assert units[2..] == rest;
      } else {
        assert units[1..] == rest;
        assert !IsUtf16SurrogatePair(wide, units[0], if |units| > 1 then units[1] else 0);
      }
      assert scalars == [c] + scalars[1..];
    }
  }

  lemma {:induction false} WrittenScalars(scalars: seq<nat>, pieces: seq<seq<Byte>>)
    requires AreScalars(scalars) && WritesEach(scalars, pieces)
    ensures EncodesAll(Concat(pieces), scalars)
    decreases |scalars|
  {
    if scalars != [] {
      WrittenScalars(scalars[1..], pieces[1..]);
      var text, k := Concat(pieces), |pieces[0]|;
      assert Writes(scalars[0], pieces[0]);
      assert text[..k] == pieces[0] && text[k..] == Concat(pieces[1..]);
    }
  }

  /** The wide form of any text without NUL is converted into UTF-8 for the same text. */
  method ConvertText(wide: WideChar, scalars: seq<nat>) returns (text: seq<Byte>)
    requires AreScalars(scalars)
    ensures IsText(text) && forall decoded :: EncodesAll(text, decoded) <==> decoded == scalars
  {
    WideCodePoints(wide, scalars);
    text := WideStringToUtf8(wide, ToWide(wide, scalars), -1);
    ghost var pieces :| WritesEach(scalars, pieces) && text == Concat(pieces);
    WrittenScalars(scalars, pieces);
    forall decoded | EncodesAll(text, decoded) ensures decoded == scalars {
      EncodesAllIsUnique(text, decoded, scalars);
    }
  }
}
