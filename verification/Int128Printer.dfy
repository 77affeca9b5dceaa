/**
  Decimal printing of 128-bit integers by two-word long division, on machines whose
  compiler has the type but not its division.
 */
module DecimalText {

  function Digit(d: nat): char
    requires d < 10
  {
    '0' + d as char
  }

  function DigitValue(c: char): int {
    c as int - '0' as int
  }

  /** The digits of v, most significant first. */
  function Decimal(v: nat): string {
    if v < 10 then [Digit(v)] else Decimal(v / 10) + [Digit(v % 10)]
  }

  ghost predicate IsNumeral(text: string) {
    && text != ""
    && (forall i :: 0 <= i < |text| ==> '0' <= text[i] <= '9')
    && (text[0] == '0' ==> |text| == 1)
  }

  /** The number that a digit string denotes. */
  function Value(text: string): int {
    if text == "" then 0 else 10 * Value(text[..|text| - 1]) + DigitValue(text[|text| - 1])
  }

  /** The text is a numeral without leading zeros, and denotes v. */
  lemma {:induction false} DecimalDenotes(v: nat)
    ensures IsNumeral(Decimal(v)) && Value(Decimal(v)) == v
    ensures v > 0 ==> Decimal(v)[0] != '0'
  {
    if v < 10 {
      assert Value(Decimal(v)[..0]) == 0;
    } else {
      DecimalDenotes(v / 10);
      assert Decimal(v)[..|Decimal(v)| - 1] == Decimal(v / 10);
    }
  }

  lemma {:induction false} NumeralValue(text: string)
    requires text != "" && forall i :: 0 <= i < |text| ==> '0' <= text[i] <= '9'
    ensures Value(text) >= 0 && (text[0] != '0' ==> Value(text) > 0)
  {
    if |text| > 1 {
      NumeralValue(text[..|text| - 1]);
    }
  }

  /** It is the only one: distinct numerals denote distinct numbers. */
  lemma {:induction false} DecimalIsUnique(text: string)
    requires IsNumeral(text)
    ensures Value(text) >= 0 && text == Decimal(Value(text))
    decreases |text|
  {
    NumeralValue(text);
    var front, d := text[..|text| - 1], DigitValue(text[|text| - 1]);
    if |text| > 1 {
      NumeralValue(front);
      DecimalIsUnique(front);
      assert Value(text) / 10 == Value(front) && Value(text) % 10 == d;
      assert text == front + [text[|text| - 1]];
    } else {
      assert Value(front) == 0;
      assert text == [text[0]];
    }
  }
}

module Int128Printer {
  import opened DecimalText

  const TWO_TO_THE_64 := 0x1_0000_0000_0000_0000
  const TWO_TO_THE_128 := 0x1_0000_0000_0000_0000_0000_0000_0000_0000

  /** A machine word: every operation on it is proved not to leave its range. */
  newtype uint64 = x: int | 0 <= x < 0x1_0000_0000_0000_0000

  function Join(high: uint64, low: uint64): (v: nat)
    ensures v < TWO_TO_THE_128
  {
    high as int * TWO_TO_THE_64 + low as int
  }

  function PowerOf10(n: nat): (p: nat)
    ensures p > 0
  {
    if n == 0 then 1 else 10 * PowerOf10(n - 1)
  }

  /** One round of the division: the words of the quotient, and the remainder. */
  method DivideBy10(high: uint64, low: uint64) returns (high': uint64, low': uint64, remainder: uint64)
    ensures Join(high', low') == Join(high, low) / 10
    ensures remainder as int == Join(high, low) % 10
    ensures low' as int == LowSum(high as int % 10, low as int)
  {
    var highMod := high % 10;
    high' := high / 10;
    // 2^64 / 10 == 1844674407370955161, 2^64 % 10 == 6
    var carry := 6 * highMod + low % 10;
    LowSumFits(highMod as int, low as int);
    low' := low / 10 + highMod * 1844674407370955161 + carry / 10;
    remainder := carry % 10;
    assert Join(high, low) == 10 * Join(high', low') + remainder as int;
  }

  /** The sum that becomes the low word, as a number. */
  function LowSum(highMod: nat, low: nat): nat {
    low / 10 + highMod * 1844674407370955161 + (6 * highMod + low % 10) / 10
  }

  /** It never exceeds the largest word, and reaches it: the bound is tight. */
  lemma LowSumFits(highMod: nat, low: nat)
    requires highMod < 10 && low < TWO_TO_THE_64
    ensures LowSum(highMod, low) <= TWO_TO_THE_64 - 1
    ensures LowSum(9, TWO_TO_THE_64 - 1) == TWO_TO_THE_64 - 1
  {
    assert low / 10 == 1844674407370955161 ==> low % 10 <= 5;
  }

  lemma FitsIn39Digits()
    ensures TWO_TO_THE_128 <= PowerOf10(39)
  {
    assert PowerOf10(13) == 1_0000_0000_0000_0;
    assert PowerOf10(26) == 1_0000_0000_0000_0000_0000_0000_00;
  }

  /** The digits not yet written stand before those in the buffer. */
  ghost predicate Written(v: nat, rest: nat, digits: string) {
    Decimal(v) == (if rest == 0 then digits else Decimal(rest) + digits)
  }

  lemma WriteDigit(v: nat, rest: nat, digits: string)
    requires rest > 0 && Written(v, rest, digits)
    ensures Written(v, rest / 10, [Digit(rest % 10)] + digits)
  {
    if rest >= 10 {
      assert Decimal(rest) + digits == Decimal(rest / 10) + ([Digit(rest % 10)] + digits);
    }
  }

  lemma NoneLeft(high: uint64, low: uint64)
    ensures Join(high, low) > 0 <==> high != 0 || low != 0
  {
  }

  lemma WrittenOut(v: nat, digits: string)
    requires Written(v, 0, digits)
    ensures digits == Decimal(v)
  {
  }

  lemma RoomLeft(rest: nat, p: nat)
    requires 0 < rest < PowerOf10(p)
    ensures p > 0 && rest / 10 < PowerOf10(p - 1)
  {
  }

  /** Fills a 40-byte buffer backwards from its terminator. */
  method PrintUInt128(v: nat) returns (text: string)
    requires v < TWO_TO_THE_128
    ensures text == Decimal(v)
  {
    if v == 0 {
      return "0";
    }
    var buf := new char[40];
    var p: nat := 40;
    var high := (v / TWO_TO_THE_64) as uint64;
    var low := (v % TWO_TO_THE_64) as uint64;
    p := p - 1;
    buf[p] := '\0';
    FitsIn39Digits();
    assert Join(high, low) == v && Written(v, v, "") && buf[39..39] == "";
    hide Written, Decimal, PowerOf10, Join;
    while high != 0 || low != 0
      invariant p <= 39 && buf[39] == '\0'
      invariant Join(high, low) < PowerOf10(p)
      invariant Written(v, Join(high, low), buf[p..39])
      decreases Join(high, low)
    {
      ghost var rest, digits := Join(high, low), buf[p..39];
      var digit;
      NoneLeft(high, low);
      RoomLeft(rest, p);
      WriteDigit(v, rest, digits);
      high, low, digit := DivideBy10(high, low);
      p := p - 1;
      buf[p] := '0' + digit as char;
      assert buf[p..39] == [Digit(rest % 10)] + digits;
    }
    text := buf[p..39];
    NoneLeft(high, low);
    WrittenOut(v, text);
  }

  /** The value as the unsigned type holds it. */
  function ToUnsigned(v: int): (u: nat)
    ensures u < TWO_TO_THE_128
  {
    v % TWO_TO_THE_128
  }

  /** Negating the unsigned form of a negative value gives its magnitude. */
  lemma Negated(v: int)
    requires -(TWO_TO_THE_128 / 2) <= v < 0
    ensures ToUnsigned(v) == v + TWO_TO_THE_128
    ensures ToUnsigned(-(v + TWO_TO_THE_128)) == -v
  {
  }

  /** Sign and magnitude, for the least value too. */
  method PrintInt128(v: int) returns (text: string)
    requires -(TWO_TO_THE_128 / 2) <= v < TWO_TO_THE_128 / 2
    ensures text == if v < 0 then "-" + Decimal(-v) else Decimal(v)
  {
    var unsigned: nat := ToUnsigned(v);
    text := "";
    if v < 0 {
      text := "-";
      Negated(v);
      unsigned := ToUnsigned(-(unsigned as int));
    }
    var magnitude := PrintUInt128(unsigned);
    text := text + magnitude;
  }
}
