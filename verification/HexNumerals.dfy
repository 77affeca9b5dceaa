/**
  Hexadecimal numerals: digits of either case, and the numerals that printing makes, in
  upper case and without leading zeros.
 */
module HexNumerals {

  predicate IsHexDigit(c: char) {
    '0' <= c <= '9' || 'A' <= c <= 'F' || 'a' <= c <= 'f'
  }

  function HexDigitValue(c: char): nat
    requires IsHexDigit(c)
  {
    if '0' <= c <= '9' then c as int - '0' as int
    else if 'A' <= c <= 'F' then c as int - 'A' as int + 10
    else c as int - 'a' as int + 10
  }

  function HexValue(t: string): nat
    requires forall i :: 0 <= i < |t| ==> IsHexDigit(t[i])
  {
    if t == "" then 0 else 16 * HexValue(t[..|t| - 1]) + HexDigitValue(t[|t| - 1])
  }

  function UpperHexDigit(d: nat): (c: char)
    requires d < 16
    ensures IsHexDigit(c) && HexDigitValue(c) == d
  {
    if d < 10 then '0' + d as char else 'A' + (d - 10) as char
  }

  function Hex(v: nat): (text: string)
    ensures text != "" && forall i :: 0 <= i < |text| ==> IsHexDigit(text[i])
  {
    if v < 16 then [UpperHexDigit(v)] else Hex(v / 16) + [UpperHexDigit(v % 16)]
  }

  ghost predicate IsHexNumeral(t: string) {
    && t != "" && (|t| > 1 ==> t[0] != '0')
    && forall i :: 0 <= i < |t| ==> '0' <= t[i] <= '9' || 'A' <= t[i] <= 'F'
  }

  lemma {:induction false} HexIsNumeral(v: nat)
    ensures IsHexNumeral(Hex(v)) && (Hex(v)[0] == '0' ==> v == 0)
  {
    if v >= 16 {
      HexIsNumeral(v / 16);
    }
  }

  lemma {:induction false} HexOfValue(v: nat)
    ensures HexValue(Hex(v)) == v
  {
    if v < 16 {
      assert Hex(v)[..0] == "";
    } else {
      HexOfValue(v / 16);
      assert Hex(v)[..|Hex(v)| - 1] == Hex(v / 16);
    }
  }

  /** More than one digit is at least sixteen. */
  lemma {:induction false} LongNumerals(t: string)
    requires IsHexNumeral(t) && t[0] != '0'
    ensures |t| > 1 ==> HexValue(t) >= 16
    ensures HexValue(t) > 0
  {
    if |t| > 1 {
      LongNumerals(t[..|t| - 1]);
    } else {
      assert t[..0] == "";
    }
  }

  lemma SplitLast(t: string)
    requires IsHexNumeral(t)
    ensures HexValue(t) == 16 * HexValue(t[..|t| - 1]) + HexDigitValue(t[|t| - 1])
    ensures |t| == 1 ==> HexValue(t) == HexDigitValue(t[0]) < 16 && t[..0] == ""
  {
    if |t| == 1 {
      assert t[..0] == "" && HexValue("") == 0;
    }
  }

  lemma {:induction false} HexNumeralIsUnique(s: string, t: string)
    requires IsHexNumeral(s) && IsHexNumeral(t) && HexValue(s) == HexValue(t)
    ensures s == t
    decreases |s|
  {
    if |s| > 1 {
      LongNumerals(s);
    }
    if |t| > 1 {
      LongNumerals(t);
    }
    SplitLast(s);
    SplitLast(t);
    hide HexValue;
    if |s| > 1 && |t| > 1 {
      HexNumeralIsUnique(s[..|s| - 1], t[..|t| - 1]);
    }
    assert s == s[..|s| - 1] + [s[|s| - 1]] && t == t[..|t| - 1] + [t[|t| - 1]];
  }
}
