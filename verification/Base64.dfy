/**
  Base64Unescape: the decoder as a machine over a partly filled byte, against the
  bit strings of RFC 4648.
 */
module Base64 {
  import opened SharedTypes

  // ---- bit strings -------------------------------------------------------------------

  function Power2(n: nat): (p: nat)
    ensures p > 0
  {
    if n == 0 then 1 else 2 * Power2(n - 1)
  }

  /** The n lowest bits of v, most significant first. */
  function Bits(v: nat, n: nat): (bits: seq<bool>)
    ensures |bits| == n
  {
    if n == 0 then [] else Bits(v / 2, n - 1) + [v % 2 == 1]
  }

  function BitsOfBytes(bytes: seq<Byte>): (bits: seq<bool>)
    ensures |bits| == 8 * |bytes|
  {
    if bytes == [] then [] else BitsOfBytes(bytes[..|bytes| - 1]) + Bits(bytes[|bytes| - 1], 8)
  }

  function BitsOfSymbols(symbols: seq<nat>): (bits: seq<bool>)
    ensures |bits| == 6 * |symbols|
  {
    if symbols == [] then [] else BitsOfSymbols(symbols[..|symbols| - 1]) + Bits(symbols[|symbols| - 1], 6)
  }

  // ---- the alphabets -------------------------------------------------------------------

  const BASE64: string := "ABCDEFGHIJKLMNOPQRSTUVWXYZ" + "abcdefghijklmnopqrstuvwxyz" + "0123456789" + "+/"

  /** The web-safe alphabet has two characters of its own. */
  function UndoWebSafeEncoding(c: char): char {
    if c == '-' then '+' else if c == '_' then '/' else c
  }

  /** The place of a character in the alphabet, counted on from carry, or 65. */
  function UnBase64Impl(c: char, base64: string, carry: nat): nat {
    if base64 == "" then 65 else if base64[0] == c then carry else UnBase64Impl(c, base64[1..], carry + 1)
  }

  /** The decoding table: for every character code the value of the symbol, or 65. */
  type Table = t: seq<nat> | |t| == 256 && forall i :: 0 <= i < |t| ==> t[i] < 64 || t[i] == 65
    witness seq(256, _ => 65)

  predicate IsSpace(c: char) {
    c == ' ' || '\t' <= c <= '\r'
  }

  predicate IsSkipped(c: char) {
    IsSpace(c) || c == '='
  }

  /** White space and the padding character. */
  lemma SkippedByCode(c: char)
    ensures IsSkipped(c) <==> 9 <= c as int <= 13 || c as int == 0x20 || c as int == 0x3D
  {
  }

  predicate IsAscii(text: string) {
    forall i :: 0 <= i < |text| ==> text[i] as int < 0x80
  }

  predicate IsSymbol(table: Table, c: char)
    requires c as int < 0x80
  {
    table[c as int] < 64
  }

  /** Every character is a symbol or is skipped. */
  ghost predicate IsBase64(table: Table, text: string)
    requires IsAscii(text)
  {
    forall i :: 0 <= i < |text| ==> IsSkipped(text[i]) || IsSymbol(table, text[i])
  }

  /** The symbols of a text, without what is skipped. */
  ghost function Symbols(table: Table, text: string): (symbols: seq<nat>)
    requires IsAscii(text) && IsBase64(table, text)
    ensures forall i :: 0 <= i < |symbols| ==> symbols[i] < 64
  {
    if text == "" then []
    else
      var last := text[|text| - 1];
      assert IsSkipped(last) || IsSymbol(table, last);
      Symbols(table, text[..|text| - 1]) + (if IsSkipped(last) then [] else [table[last as int]])
  }

  // ---- arithmetic of bit strings ---------------------------------------------------------

  lemma {:induction false} BitsJoin(a: nat, m: nat, b: nat, n: nat)
    requires b < Power2(n)
    ensures Bits(a * Power2(n) + b, m + n) == Bits(a, m) + Bits(b, n)
    decreases n
  {
    if n == 0 {
      assert a * Power2(0) + b == a;
    } else {
      var v := a * Power2(n) + b;
      Halve(a, b, n);
      BitsJoin(a, m, b / 2, n - 1);
    }
  }

  lemma Halve(a: nat, b: nat, n: nat)
    requires n > 0 && b < Power2(n)
    ensures (a * Power2(n) + b) / 2 == a * Power2(n - 1) + b / 2
    ensures (a * Power2(n) + b) % 2 == b % 2
    ensures b / 2 < Power2(n - 1)
  {
    var p := a * Power2(n - 1);
    assert a * Power2(n) == 2 * p;
  }

  lemma {:induction false} BitsDetermine(v: nat, w: nat, n: nat)
    requires v < Power2(n) && w < Power2(n) && Bits(v, n) == Bits(w, n)
    ensures v == w
    decreases n
  {
    if n > 0 {
      assert Bits(v, n)[..n - 1] == Bits(v / 2, n - 1) && Bits(w, n)[..n - 1] == Bits(w / 2, n - 1);
      assert Bits(v, n)[n - 1] == Bits(w, n)[n - 1];
      BitsDetermine(v / 2, w / 2, n - 1);
    }
  }

  lemma {:induction false} BytesDetermined(bytes: seq<Byte>, bytes': seq<Byte>)
    requires BitsOfBytes(bytes) == BitsOfBytes(bytes')
    ensures bytes == bytes'
    decreases |bytes|
  {
    assert |bytes| == |bytes'|;
    if bytes != [] {
      var n := |bytes| - 1;
      var front, front' := BitsOfBytes(bytes[..n]), BitsOfBytes(bytes'[..n]);
      assert BitsOfBytes(bytes)[..8 * n] == front && BitsOfBytes(bytes')[..8 * n] == front';
      assert BitsOfBytes(bytes)[8 * n..] == Bits(bytes[n], 8) && BitsOfBytes(bytes')[8 * n..] == Bits(bytes'[n], 8);
      BytesDetermined(bytes[..n], bytes'[..n]);
      assert Power2(8) == 256;
      BitsDetermine(bytes[n], bytes'[n], 8);
      assert bytes == bytes[..n] + [bytes[n]] && bytes' == bytes'[..n] + [bytes'[n]];
    }
  }

  // ---- the decoder ---------------------------------------------------------------------------

  /** The highest bits of a byte that is being filled; its other bits are clear. */
  predicate Holds(dst: Byte, pending: nat, bits: seq<bool>) {
    match pending
    case 0 => dst == 0 && bits == []
    case 2 => dst % 64 == 0 && bits == Bits(dst / 64, 2)
    case 4 => dst % 16 == 0 && bits == Bits(dst / 16, 4)
    case 6 => dst % 4 == 0 && bits == Bits(dst / 4, 6)
    case _ => false
  }

  /** The symbols read so far are the bytes written and the pending bits of dst. */
  ghost predicate Machine(symbols: seq<nat>, bytes: seq<Byte>, dst: Byte, pending: nat) {
    exists bits :: Holds(dst, pending, bits) && BitsOfSymbols(symbols) == BitsOfBytes(bytes) + bits
  }

  lemma Powers()
    ensures Power2(0) == 1 && Power2(2) == 4 && Power2(4) == 16 && Power2(6) == 64 && Power2(8) == 256
  {
  }

  /** Two, four or six pending bits and a symbol are a whole byte and zero, two or four
      pending bits. */
  lemma Split2(high: nat, symbol: nat)
    requires symbol < 64
    ensures Bits(high, 2) + Bits(symbol, 6) == Bits(high * 64 + symbol, 8)
  {
    Powers();
    BitsJoin(high, 2, symbol, 6);
  }

  lemma Split4(high: nat, symbol: nat)
    requires symbol < 64
    ensures Bits(high, 4) + Bits(symbol, 6) == Bits(high * 16 + symbol / 4, 8) + Bits(symbol % 4, 2)
  {
    assert Bits(symbol, 6) == Bits(symbol / 4, 4) + Bits(symbol % 4, 2) by {
      assert Power2(2) == 4;
      BitsJoin(symbol / 4, 4, symbol % 4, 2);
    }
    assert Bits(high * 16 + symbol / 4, 8) == Bits(high, 4) + Bits(symbol / 4, 4) by {
      assert Power2(4) == 16;
      BitsJoin(high, 4, symbol / 4, 4);
    }
    assert Bits(high, 4) + (Bits(symbol / 4, 4) + Bits(symbol % 4, 2)) ==
           (Bits(high, 4) + Bits(symbol / 4, 4)) + Bits(symbol % 4, 2);
  }

  lemma Split6(high: nat, symbol: nat)
    requires symbol < 64
    ensures Bits(high, 6) + Bits(symbol, 6) == Bits(high * 4 + symbol / 16, 8) + Bits(symbol % 16, 4)
  {
    Powers();
    assert Bits(symbol, 6) == Bits(symbol / 16, 2) + Bits(symbol % 16, 4) by {
      assert Power2(4) == 16;
      BitsJoin(symbol / 16, 2, symbol % 16, 4);
    }
    assert Bits(high * 4 + symbol / 16, 8) == Bits(high, 6) + Bits(symbol / 16, 2) by {
      assert Power2(2) == 4;
      BitsJoin(high, 6, symbol / 16, 2);
    }
    assert Bits(high, 6) + (Bits(symbol / 16, 2) + Bits(symbol % 16, 4)) ==
           (Bits(high, 6) + Bits(symbol / 16, 2)) + Bits(symbol % 16, 4);
  }

  lemma MachineStart(symbols: seq<nat>, bytes: seq<Byte>, dst: Byte, symbol: nat)
    requires Machine(symbols, bytes, dst, 0) && symbol < 64
    ensures dst == 0 && Machine(symbols + [symbol], bytes, symbol * 4, 6)
  {
    assert (symbols + [symbol])[..|symbols|] == symbols;
    assert Holds(symbol * 4, 6, Bits(symbol, 6));
    assert BitsOfSymbols(symbols + [symbol]) == BitsOfBytes(bytes) + Bits(symbol, 6);
  }

  lemma FillByte(symbols: seq<nat>, bytes: seq<Byte>, bits: seq<bool>, symbol: nat, byte: Byte, rest: seq<bool>)
    requires BitsOfSymbols(symbols) == BitsOfBytes(bytes) + bits
    requires bits + Bits(symbol, 6) == Bits(byte, 8) + rest
    ensures BitsOfSymbols(symbols + [symbol]) == BitsOfBytes(bytes + [byte]) + rest
  {
    assert (symbols + [symbol])[..|symbols|] == symbols && (bytes + [byte])[..|bytes|] == bytes;
    Reassociate(BitsOfBytes(bytes), bits, Bits(symbol, 6), Bits(byte, 8), rest);
  }

  lemma Reassociate(p: seq<bool>, q: seq<bool>, r: seq<bool>, t: seq<bool>, u: seq<bool>)
    requires q + r == t + u
    ensures (p + q) + r == (p + t) + u
  {
    assert (p + q) + r == p + (q + r) && p + (t + u) == (p + t) + u;
  }

  lemma Arithmetic4(dst: Byte, symbol: nat)
    requires dst % 16 == 0 && symbol < 64
    ensures dst + symbol / 4 < 0x100 && dst / 16 * 16 == dst && symbol * 64 % 0x100 == symbol % 4 * 64
    ensures symbol % 4 * 64 % 64 == 0 && symbol % 4 * 64 / 64 == symbol % 4
  {
  }

  lemma Arithmetic6(dst: Byte, symbol: nat)
    requires dst % 4 == 0 && symbol < 64
    ensures dst + symbol / 16 < 0x100 && dst / 4 * 4 == dst && symbol * 16 % 0x100 == symbol % 16 * 16
    ensures symbol % 16 * 16 % 16 == 0 && symbol % 16 * 16 / 16 == symbol % 16
  {
  }

  /** v >> n, for the shifts that occur. */
  function ShiftRight(v: nat, n: int): nat
    requires n == 0 || n == 2 || n == 4
  {
    if n == 0 then v else if n == 2 then v / 4 else v / 16
  }

  /** v << n as a byte, for the shifts that occur. */
  function ShiftLeft(v: nat, n: int): Byte
    requires n == 4 || n == 6 || n == 8
  {
    (if n == 4 then v * 16 else if n == 6 then v * 64 else v * 256) % 0x100
  }

  function NextPosition(bitPos: nat): nat {
    (bitPos + 6) % 8
  }

  lemma SplitByte2(dst: Byte, bits: seq<bool>, symbol: nat)
    requires Holds(dst, 2, bits) && symbol < 64
    ensures dst + ShiftRight(symbol, 0) < 0x100
    ensures bits + Bits(symbol, 6) == Bits(dst + ShiftRight(symbol, 0), 8) + []
    ensures Holds(ShiftLeft(symbol, 8), 0, [])
  {
    Split2(dst / 64, symbol);
    assert Bits(dst + symbol, 8) + [] == Bits(dst + symbol, 8);
  }

  lemma SplitByte4(dst: Byte, bits: seq<bool>, symbol: nat)
    requires Holds(dst, 4, bits) && symbol < 64
    ensures dst + ShiftRight(symbol, 2) < 0x100
    ensures bits + Bits(symbol, 6) == Bits(dst + ShiftRight(symbol, 2), 8) + Bits(symbol % 4, 2)
    ensures Holds(ShiftLeft(symbol, 6), 2, Bits(symbol % 4, 2))
  {
    Arithmetic4(dst, symbol);
    Split4(dst / 16, symbol);
  }

  lemma SplitByte6(dst: Byte, bits: seq<bool>, symbol: nat)
    requires Holds(dst, 6, bits) && symbol < 64
    ensures dst + ShiftRight(symbol, 4) < 0x100
    ensures bits + Bits(symbol, 6) == Bits(dst + ShiftRight(symbol, 4), 8) + Bits(symbol % 16, 4)
    ensures Holds(ShiftLeft(symbol, 4), 4, Bits(symbol % 16, 4))
  {
    Arithmetic6(dst, symbol);
    Split6(dst / 4, symbol);
  }

  /** How a symbol is split between the byte being filled and the next one. */
  lemma SplitByte(dst: Byte, pending: nat, bits: seq<bool>, symbol: nat) returns (rest: seq<bool>)
    requires Holds(dst, pending, bits) && symbol < 64 && pending != 0
    ensures pending == 2 || pending == 4 || pending == 6
    ensures dst + ShiftRight(symbol, pending - 2) < 0x100
    ensures bits + Bits(symbol, 6) == Bits(dst + ShiftRight(symbol, pending - 2), 8) + rest
    ensures Holds(ShiftLeft(symbol, 10 - pending), NextPosition(pending), rest)
  {
    assert pending == 2 || pending == 4 || pending == 6;
    hide *;
    if pending == 2 {
      SplitByte2(dst, bits, symbol);
      return [];
    }
    if pending == 4 {
      SplitByte4(dst, bits, symbol);
      return Bits(symbol % 4, 2);
    }
    SplitByte6(dst, bits, symbol);
    return Bits(symbol % 16, 4);
  }

  lemma MachineStep(symbols: seq<nat>, bytes: seq<Byte>, dst: Byte, pending: nat, symbol: nat)
    requires Machine(symbols, bytes, dst, pending) && symbol < 64 && pending != 0
    ensures pending == 2 || pending == 4 || pending == 6
    ensures var byte, next := dst + ShiftRight(symbol, pending - 2), ShiftLeft(symbol, 10 - pending);
            byte < 0x100 && Machine(symbols + [symbol], bytes + [byte], next, NextPosition(pending))
  {
    var bits :| Holds(dst, pending, bits) && BitsOfSymbols(symbols) == BitsOfBytes(bytes) + bits;
    var rest := SplitByte(dst, pending, bits, symbol);
    FillByte(symbols, bytes, bits, symbol, dst + ShiftRight(symbol, pending - 2), rest);
  }

  /** The bits of the output are those of the symbols, up to the last whole byte. */
  ghost predicate Decodes(symbols: seq<nat>, bytes: seq<Byte>) {
    && |bytes| == 6 * |symbols| / 8
    && BitsOfBytes(bytes) <= BitsOfSymbols(symbols)
  }

  lemma MachineDone(symbols: seq<nat>, bytes: seq<Byte>, dst: Byte, pending: nat)
    requires Machine(symbols, bytes, dst, pending)
    ensures Decodes(symbols, bytes)
  {
  }

  /** The state of the decoder after a text. */
  ghost predicate Decoding(table: Table, text: string, bytes: seq<Byte>, dst: Byte, pending: nat) {
    IsAscii(text) && IsBase64(table, text) && Machine(Symbols(table, text), bytes, dst, pending)
  }

  lemma OneMoreCharacter(table: Table, text: string, c: char)
    requires IsAscii(text) && IsBase64(table, text) && c as int < 0x80
    ensures IsAscii(text + [c])
    ensures IsSkipped(c) ==> IsBase64(table, text + [c]) && Symbols(table, text + [c]) == Symbols(table, text)
    ensures !IsSkipped(c) && IsSymbol(table, c) ==>
              IsBase64(table, text + [c]) && Symbols(table, text + [c]) == Symbols(table, text) + [table[c as int]]
  {
    assert (text + [c])[..|text|] == text;
  }

  lemma SkipCharacter(table: Table, text: string, i: nat, bytes: seq<Byte>, dst: Byte, pending: nat)
    requires IsAscii(text) && i < |text| && IsSkipped(text[i])
    requires Decoding(table, text[..i], bytes, dst, pending)
    ensures Decoding(table, text[..i + 1], bytes, dst, pending)
  {
    assert text[..i + 1] == text[..i] + [text[i]];
    hide Machine, Symbols;
    OneMoreCharacter(table, text[..i], text[i]);
  }

  lemma TakeFirst(table: Table, text: string, i: nat, bytes: seq<Byte>, dst: Byte)
    requires IsAscii(text) && i < |text| && !IsSkipped(text[i]) && IsSymbol(table, text[i])
    requires Decoding(table, text[..i], bytes, dst, 0)
    ensures Decoding(table, text[..i + 1], bytes, table[text[i] as int] * 4, 6)
  {
    assert text[..i + 1] == text[..i] + [text[i]];
    hide Machine, Symbols;
    OneMoreCharacter(table, text[..i], text[i]);
    MachineStart(Symbols(table, text[..i]), bytes, dst, table[text[i] as int]);
  }

  lemma TakeNext(table: Table, text: string, i: nat, bytes: seq<Byte>, dst: Byte, pending: nat)
    requires IsAscii(text) && i < |text| && !IsSkipped(text[i]) && IsSymbol(table, text[i])
    requires Decoding(table, text[..i], bytes, dst, pending) && pending != 0
    ensures pending == 2 || pending == 4 || pending == 6
    ensures var symbol := table[text[i] as int];
            var byte, next := dst + ShiftRight(symbol, pending - 2), ShiftLeft(symbol, 10 - pending);
            byte < 0x100 && Decoding(table, text[..i + 1], bytes + [byte], next, NextPosition(pending))
  {
    assert text[..i + 1] == text[..i] + [text[i]];
    hide Machine, Symbols;
    OneMoreCharacter(table, text[..i], text[i]);
    MachineStep(Symbols(table, text[..i]), bytes, dst, pending, table[text[i] as int]);
  }

  lemma BadCharacter(table: Table, text: string, i: nat)
    requires IsAscii(text) && i < |text| && !IsSkipped(text[i]) && !IsSymbol(table, text[i])
    ensures !IsBase64(table, text)
  {
  }

  lemma DecodingDone(table: Table, text: string, bytes: seq<Byte>, dst: Byte, pending: nat)
    requires Decoding(table, text, bytes, dst, pending)
    ensures IsAscii(text) && IsBase64(table, text) && Decodes(Symbols(table, text), bytes)
  {
    MachineDone(Symbols(table, text), bytes, dst, pending);
  }

  method Base64UnescapeWith(table: Table, encoded: string) returns (ok: bool, decoded: seq<Byte>)
    requires IsAscii(encoded)
    ensures ok <==> IsBase64(table, encoded)
    ensures if ok then Decodes(Symbols(table, encoded), decoded) else decoded == []
  {
    decoded := [];
    var bitPos: nat := 0;
    var dst: Byte := 0;
    assert Holds(0, 0, []);
    assert Decoding(table, encoded[..0], decoded, dst, bitPos);
    hide Decoding, IsBase64, IsSkipped, Symbols, Decodes, ShiftLeft, ShiftRight, NextPosition;
    for i := 0 to |encoded|
      invariant Decoding(table, encoded[..i], decoded, dst, bitPos)
    {
      var src := encoded[i];
      if IsSkipped(src) {
        SkipCharacter(table, encoded, i, decoded, dst, bitPos);
        continue;
      }
      var symbol := table[src as int];
      if symbol >= 64 {
        BadCharacter(table, encoded, i);
        return false, [];
      }
      if bitPos == 0 {
        TakeFirst(table, encoded, i, decoded, dst);
        dst := symbol * 4;
        bitPos := 6;
      } else {
        TakeNext(table, encoded, i, decoded, dst, bitPos);
        dst := dst + ShiftRight(symbol, bitPos - 2);
        decoded := decoded + [dst];
        dst := ShiftLeft(symbol, 10 - bitPos);
        bitPos := NextPosition(bitPos);
      }
    }
    assert encoded[..|encoded|] == encoded;
    DecodingDone(table, encoded, decoded, dst, bitPos);
    ok := true;
  }

  // ---- encodings ------------------------------------------------------------------------------

  /** The number with the given bits. */
  function ValueOf(bits: seq<bool>): (v: nat) {
    if bits == [] then 0
    else 2 * ValueOf(bits[..|bits| - 1]) + (if bits[|bits| - 1] then 1 else 0)
  }

  lemma {:induction false} BitsOfValue(bits: seq<bool>)
    ensures ValueOf(bits) < Power2(|bits|) && Bits(ValueOf(bits), |bits|) == bits
  {
    if bits != [] {
      BitsOfValue(bits[..|bits| - 1]);
    }
  }

  /** A bit string cut into symbols of six bits. */
  function SymbolsOf(bits: seq<bool>): (symbols: seq<nat>)
    requires |bits| % 6 == 0
  {
    if bits == [] then [] else SymbolsOf(bits[..|bits| - 6]) + [ValueOf(bits[|bits| - 6..])]
  }

  lemma {:induction false} BitsOfSymbolsOf(bits: seq<bool>)
    requires |bits| % 6 == 0
    ensures BitsOfSymbols(SymbolsOf(bits)) == bits
    decreases |bits|
  {
    if bits == [] {
      return;
    }
    var front, back := bits[..|bits| - 6], bits[|bits| - 6..];
    assert bits == front + back;
    BitsOfSymbolsOf(front);
    BitsOfValue(back);
    assert SymbolsOf(bits) == SymbolsOf(front) + [ValueOf(back)];
    hide SymbolsOf, ValueOf, Bits;
    assert SymbolsOf(bits)[..|SymbolsOf(bits)| - 1] == SymbolsOf(front);
  }

  /** The zero bits that fill up the last symbol of an encoding of n bytes. */
  function Fill(n: nat): (bits: seq<bool>)
    ensures (8 * n + |bits|) % 6 == 0 && |bits| < 6 && forall i :: 0 <= i < |bits| ==> !bits[i]
  {
    var rest := n % 3;
    assert 8 * n == 6 * (4 * (n / 3) + rest) + 2 * rest;
    if rest == 0 then [] else if rest == 1 then [false, false, false, false] else [false, false]
  }

  /** The symbols for a byte string: its bits and the zeros that complete the last symbol,
      cut into sixes (section 4 of RFC 4648). */
  function EncodeSymbols(bytes: seq<Byte>): (symbols: seq<nat>) {
    SymbolsOf(BitsOfBytes(bytes) + Fill(|bytes|))
  }

  /** Decoding the symbols of a byte string gives back that string and no other. */
  lemma DecodesInverts(bytes: seq<Byte>, decoded: seq<Byte>)
    requires Decodes(EncodeSymbols(bytes), decoded)
    ensures decoded == bytes
  {
    var bits := BitsOfBytes(bytes) + Fill(|bytes|);
    BitsOfSymbolsOf(bits);
    assert |decoded| == |bytes|;
    assert BitsOfBytes(decoded) == bits[..8 * |bytes|] == BitsOfBytes(bytes);
    BytesDetermined(decoded, bytes);
  }

  // ---- texts -----------------------------------------------------------------------------------

  /** The character of a symbol in the usual alphabet of section 4 of RFC 4648, or in the
      web-safe one of section 5. */
  function SymbolChar(v: nat, webSafe: bool): char
    requires v < 64
  {
    if v < 26 then 'A' + v as char
    else if v < 52 then 'a' + (v - 26) as char
    else if v < 62 then '0' + (v - 52) as char
    else if v == 62 then (if webSafe then '-' else '+')
    else if webSafe then '_' else '/'
  }

  ghost predicate IsStandard(base64: string) {
    |base64| == 64 && forall v :: 0 <= v < 64 ==> base64[v] == SymbolChar(v, false)
  }

  lemma PartsAreRuns()
    ensures forall i :: 0 <= i < 26 ==> "ABCDEFGHIJKLMNOPQRSTUVWXYZ"[i] == 'A' + i as char
    ensures forall i :: 0 <= i < 26 ==> "abcdefghijklmnopqrstuvwxyz"[i] == 'a' + i as char
    ensures forall i :: 0 <= i < 10 ==> "0123456789"[i] == '0' + i as char
  {
  }

  /** The alphabet is the one of section 4 of RFC 4648. */
  lemma AlphabetIsStandard()
    ensures IsStandard(BASE64)
  {
    PartsAreRuns();
  }

  lemma {:induction false} UnBase64Range(c: char, base64: string, carry: nat)
    ensures var v := UnBase64Impl(c, base64, carry);
            v == 65 || carry <= v < carry + |base64|
  {
    if base64 != "" && base64[0] != c {
      UnBase64Range(c, base64[1..], carry + 1);
    }
  }

  /** The table for an alphabet. */
  function UnBase64(base64: string): (table: Table)
    requires |base64| == 64
    ensures forall c: char :: c as int < 256 ==> table[c as int] == UnBase64Impl(UndoWebSafeEncoding(c), base64, 0)
  {
    assert forall c {:trigger UnBase64Impl(c, base64, 0)} ::
        UnBase64Impl(c, base64, 0) < 64 || UnBase64Impl(c, base64, 0) == 65 by {
      forall c ensures UnBase64Impl(c, base64, 0) < 64 || UnBase64Impl(c, base64, 0) == 65 {
        UnBase64Range(c, base64, 0);
      }
    }
    seq(256, i requires 0 <= i < 256 => UnBase64Impl(UndoWebSafeEncoding(i as char), base64, 0))
  }

  lemma {:induction false} FoundAt(c: char, base64: string, carry: nat, k: nat)
    requires k < |base64| && base64[k] == c && forall i :: 0 <= i < k ==> base64[i] != c
    ensures UnBase64Impl(c, base64, carry) == carry + k
  {
    if k > 0 {
      FoundAt(c, base64[1..], carry + 1, k - 1);
    }
  }

  lemma {:induction false} NotFound(c: char, base64: string, carry: nat)
    requires forall i :: 0 <= i < |base64| ==> base64[i] != c
    ensures UnBase64Impl(c, base64, carry) == 65
  {
    if base64 != "" {
      NotFound(c, base64[1..], carry + 1);
    }
  }

  ghost predicate InAlphabet(c: char) {
    exists v: nat, webSafe :: v < 64 && SymbolChar(v, webSafe) == c
  }

  /** The table decodes exactly the characters of both alphabets. */
  lemma TableIsStandard(base64: string, c: char)
    requires IsStandard(base64) && c as int < 0x80
    ensures IsSymbol(UnBase64(base64), c) <==> InAlphabet(c)
    ensures forall v: nat, webSafe :: v < 64 && SymbolChar(v, webSafe) == c ==> UnBase64(base64)[c as int] == v
  {
    var d := UndoWebSafeEncoding(c);
    if IsSymbol(UnBase64(base64), c) || InAlphabet(c) {
      if forall i :: 0 <= i < 64 ==> base64[i] != d {
        NotFound(d, base64, 0);
        WebSafeChar(c);
      } else {
        var k: nat :| k < 64 && base64[k] == d;
        SymbolsDiffer(k);
        FoundAt(d, base64, 0, k);
        WebSafeChar(c);
      }
    }
  }

  /** No two symbols share a character. */
  lemma SymbolsDiffer(k: nat)
    requires k < 64
    ensures forall i :: 0 <= i < k ==> SymbolChar(i, false) != SymbolChar(k, false)
  {
  }

  /** A character is a symbol of either alphabet if it is one of the usual alphabet once the
      web-safe encoding is undone. */
  lemma WebSafeChar(c: char)
    ensures forall v: nat, webSafe :: v < 64 && SymbolChar(v, webSafe) == c ==>
            SymbolChar(v, false) == UndoWebSafeEncoding(c)
    ensures forall v: nat :: v < 64 && SymbolChar(v, false) == UndoWebSafeEncoding(c) ==>
                        SymbolChar(v, c == '-' || c == '_') == c
  {
  }

  /** A text without the characters that are skipped. */
  function Strip(text: string): string {
    if text == "" then ""
    else
      var last := text[|text| - 1];
      Strip(text[..|text| - 1]) + (if IsSkipped(last) then "" else [last])
  }

  /** The characters of the symbols, each in either alphabet. */
  ghost predicate Spells(text: string, symbols: seq<nat>) {
    && |text| == |symbols|
    && forall i :: 0 <= i < |text| ==> symbols[i] < 64 && exists webSafe :: SymbolChar(symbols[i], webSafe) == text[i]
  }

  lemma {:induction false} SpelledSymbols(base64: string, text: string, symbols: seq<nat>)
    requires IsStandard(base64) && IsAscii(text) && Spells(Strip(text), symbols)
    ensures IsBase64(UnBase64(base64), text) && Symbols(UnBase64(base64), text) == symbols
    decreases |text|
  {
    if text != "" {
      var n := |text| - 1;
      var last, front := text[n], text[..n];
      if IsSkipped(last) {
        assert Strip(text) == Strip(front);
        SpelledSymbols(base64, front, symbols);
      } else {
        var m := |symbols| - 1;
        assert Strip(text) == Strip(front) + [last];
        assert Spells(Strip(front), symbols[..m]) by {
          assert forall i :: 0 <= i < m ==> Strip(front)[i] == Strip(text)[i];
        }
        SpelledSymbols(base64, front, symbols[..m]);
        TableIsStandard(base64, last);
        assert Strip(text)[m] == last;
        assert symbols == symbols[..m] + [symbols[m]];
      }
      assert forall i :: 0 <= i < n ==> text[i] == front[i];
    }
  }

  /** The decoder with the standard table. Of any text that spells the encoding of a byte
      string, in either alphabet, with white space and `=` anywhere, it makes that string. */
  method Base64Unescape(encoded: string) returns (ok: bool, decoded: seq<Byte>)
    requires IsAscii(encoded)
    ensures IsBase64(UnBase64(BASE64), encoded) <==> ok
    ensures ok <==> forall i :: 0 <= i < |encoded| ==>
                      || 9 <= encoded[i] as int <= 13 || encoded[i] as int == 0x20 || encoded[i] as int == 0x3D
                      || InAlphabet(encoded[i])
    ensures if ok then Decodes(Symbols(UnBase64(BASE64), encoded), decoded) else decoded == []
    ensures forall bytes :: Spells(Strip(encoded), EncodeSymbols(bytes)) ==> ok && decoded == bytes
  {
    AlphabetIsStandard();
    ok, decoded := Base64UnescapeWith(UnBase64(BASE64), encoded);
    forall c: char | c as int < 0x80 ensures IsSymbol(UnBase64(BASE64), c) <==> InAlphabet(c) {
      TableIsStandard(BASE64, c);
    }
    forall bytes | Spells(Strip(encoded), EncodeSymbols(bytes)) ensures ok && decoded == bytes {
      SpelledSymbols(BASE64, encoded, EncodeSymbols(bytes));
      DecodesInverts(bytes, decoded);
    }
  }
}
