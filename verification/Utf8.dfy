/**
  UTF-8 (RFC 3629): what an encoding is, the validator, the encoder of code points,
  and the conversion of wide strings.
 */
module Utf8 {
  import opened SharedTypes

  /** Unicode scalar values: code points that are no surrogates. */
  predicate IsScalar(c: nat) {
    c <= 0x10FFFF && !(0xD800 <= c <= 0xDFFF)
  }

  predicate IsTrail(b: Byte) {
    0x80 <= b <= 0xBF
  }

  /** What is left of a byte when its marker bits are taken away. */
  function Bits(b: Byte, marker: int): int {
    b as int - marker
  }

  /** The bytes carry the number c in the bits that section 3 of RFC 3629 gives them,
      and no shorter sequence can. */
  predicate Encodes(s: seq<Byte>, c: nat) {
    if |s| == 1 then s[0] <= 0x7F && c == s[0]
    else if |s| == 2 then
      0xC0 <= s[0] <= 0xDF && IsTrail(s[1]) &&
      c == Bits(s[0], 0xC0) * 0x40 + Bits(s[1], 0x80) && c > 0x7F
    else if |s| == 3 then
      0xE0 <= s[0] <= 0xEF && IsTrail(s[1]) && IsTrail(s[2]) &&
      c == Bits(s[0], 0xE0) * 0x1000 + Bits(s[1], 0x80) * 0x40 + Bits(s[2], 0x80) && c > 0x7FF
    else if |s| == 4 then
      0xF0 <= s[0] <= 0xF7 && IsTrail(s[1]) && IsTrail(s[2]) && IsTrail(s[3]) &&
      c == Bits(s[0], 0xF0) * 0x40000 + Bits(s[1], 0x80) * 0x1000 + Bits(s[2], 0x80) * 0x40 + Bits(s[3], 0x80) &&
        c > 0xFFFF
    else false
  }

  /** The bytes are the concatenated encodings of the scalar values. */
  ghost predicate EncodesAll(s: seq<Byte>, scalars: seq<nat>)
    decreases |scalars|
  {
    if scalars == [] then s == []
    else
      IsScalar(scalars[0]) &&
      exists k :: 0 <= k <= |s| && Encodes(s[..k], scalars[0]) && EncodesAll(s[k..], scalars[1..])
  }

  ghost predicate IsText(s: seq<Byte>) {
    exists scalars :: EncodesAll(s, scalars)
  }

  /** A number has one encoding, which carries it in the bits of section 3 of RFC 3629. */
  lemma EncodingIsUnique(s: seq<Byte>, t: seq<Byte>, c: nat)
    requires Encodes(s, c) && Encodes(t, c)
    ensures s == t
  {
    TrailsByBits(s, c);
    TrailsByBits(t, c);
    hide Encodes;
  }

  lemma SixBits(c: int, high: int, low: int)
    requires c == 0x40 * high + low && 0 <= low < 0x40
    ensures c / 0x40 == high && c % 0x40 == low
  {
  }

  lemma TrailsByBits(s: seq<Byte>, c: nat)
    requires Encodes(s, c)
    ensures if c <= 0x7F then s == [c]
            else if c <= 0x7FF then s == [0xC0 + c / 0x40, 0x80 + c % 0x40]
            else if c <= 0xFFFF then s == [0xE0 + c / 0x40 / 0x40, 0x80 + c / 0x40 % 0x40, 0x80 + c % 0x40]
            else c <= 0x1F_FFFF &&
                 s == [0xF0 + c / 0x40 / 0x40 / 0x40, 0x80 + c / 0x40 / 0x40 % 0x40, 0x80 + c / 0x40 % 0x40,
                       0x80 + c % 0x40]
  {
    if |s| == 2 {
      SixBits(c, Bits(s[0], 0xC0), Bits(s[1], 0x80));
    } else if |s| == 3 {
      var x: int := 0x40 * Bits(s[0], 0xE0) + Bits(s[1], 0x80);
      SixBits(c, x, Bits(s[2], 0x80));
      SixBits(x, Bits(s[0], 0xE0), Bits(s[1], 0x80));
    } else if |s| == 4 {
      var y: int := 0x40 * Bits(s[0], 0xF0) + Bits(s[1], 0x80);
      var x: int := 0x40 * y + Bits(s[2], 0x80);
      SixBits(c, x, Bits(s[3], 0x80));
      SixBits(x, y, Bits(s[2], 0x80));
      SixBits(y, Bits(s[0], 0xF0), Bits(s[1], 0x80));
    }
  }

  /** No encoding is the beginning of another one, and none has two meanings. */
  lemma PrefixCode(s: seq<Byte>, j: nat, c: nat, k: nat, d: nat)
    requires j <= |s| && k <= |s| && Encodes(s[..j], c) && Encodes(s[..k], d)
    ensures j == k && c == d
  {
    assert s[..j][0] == s[0] == s[..k][0];
  }

  lemma {:induction false} EncodesAllIsUnique(s: seq<Byte>, scalars: seq<nat>, scalars': seq<nat>)
    requires EncodesAll(s, scalars) && EncodesAll(s, scalars')
    ensures scalars == scalars'
    decreases |scalars|
  {
    if scalars != [] && scalars' != [] {
      hide Encodes;
      var j :| 0 <= j <= |s| && Encodes(s[..j], scalars[0]) && EncodesAll(s[j..], scalars[1..]);
      var k :| 0 <= k <= |s| && Encodes(s[..k], scalars'[0]) && EncodesAll(s[k..], scalars'[1..]);
      PrefixCode(s, j, scalars[0], k, scalars'[0]);
      EncodesAllIsUnique(s[j..], scalars[1..], scalars'[1..]);
      assert scalars == [scalars[0]] + scalars[1..] && scalars' == [scalars'[0]] + scalars'[1..];
    }
  }

  /** Text may be read piece by piece. */
  lemma TextByPieces(s: seq<Byte>, k: nat, c: nat)
    requires k <= |s| && Encodes(s[..k], c)
    ensures IsText(s) <==> IsScalar(c) && IsText(s[k..])
  {
    if IsText(s) {
      var scalars :| EncodesAll(s, scalars);
      var j :| 0 <= j <= |s| && Encodes(s[..j], scalars[0]) && EncodesAll(s[j..], scalars[1..]);
      PrefixCode(s, j, scalars[0], k, c);
    }
    if IsScalar(c) && IsText(s[k..]) {
      var rest :| EncodesAll(s[k..], rest);
      assert ([c] + rest)[1..] == rest;
      assert EncodesAll(s, [c] + rest);
    }
  }

  lemma EmptyIsText()
    ensures IsText([])
  {
    assert EncodesAll([], []);
  }

  /** The length of the encoding of a scalar value at the start of the bytes, or 0. */
  ghost function FirstLength(s: seq<Byte>): (k: nat)
    ensures k <= |s| && k <= 4
    ensures k > 0 ==> exists c :: IsScalar(c) && Encodes(s[..k], c)
    ensures k == 0 ==> forall j, c :: 0 <= j <= |s| && IsScalar(c) ==> !Encodes(s[..j], c)
  {
    if j, c :| 0 <= j <= |s| && IsScalar(c) && Encodes(s[..j], c) then j else 0
  }

  lemma TextByFirst(s: seq<Byte>)
    requires s != []
    ensures IsText(s) <==> FirstLength(s) > 0 && IsText(s[FirstLength(s)..])
  {
    var k := FirstLength(s);
    if k > 0 {
      var c :| IsScalar(c) && Encodes(s[..k], c);
      TextByPieces(s, k, c);
    }
  }

  // ---- the validator --------------------------------------------------------------------

  /** The validator's case distinction at a lead byte: how long the encoding is, or 0. */
  function LeadCase(s: seq<Byte>): (k: nat)
    requires s != []
    ensures k <= |s|
  {
    var lead := s[0];
    if lead <= 0x7F then 1
    else if lead < 0xC2 then 0
    else if lead <= 0xDF && 2 <= |s| && IsTrail(s[1]) then 2
    else if 0xE0 <= lead <= 0xEF && 3 <= |s| && IsTrail(s[1]) && IsTrail(s[2]) &&
            (lead != 0xE0 || s[1] >= 0xA0) && (lead != 0xED || s[1] < 0xA0) then 3
    else if 0xF0 <= lead <= 0xF4 && 4 <= |s| && IsTrail(s[1]) && IsTrail(s[2]) && IsTrail(s[3]) &&
            (lead != 0xF0 || s[1] >= 0x90) && (lead != 0xF4 || s[1] < 0x90) then 4
    else 0
  }

  /** The number in the first bytes. */
  function Decoded(s: seq<Byte>, k: nat): int
    requires 1 <= k <= 4 && k <= |s|
  {
    if k == 1 then s[0]
    else if k == 2 then Bits(s[0], 0xC0) * 0x40 + Bits(s[1], 0x80)
    else if k == 3 then Bits(s[0], 0xE0) * 0x1000 + Bits(s[1], 0x80) * 0x40 + Bits(s[2], 0x80)
    else Bits(s[0], 0xF0) * 0x40000 + Bits(s[1], 0x80) * 0x1000 + Bits(s[2], 0x80) * 0x40 + Bits(s[3], 0x80)
  }

  /** The case distinction finds exactly the encodings of scalar values. */
  lemma LeadCaseIsFirst(s: seq<Byte>)
    requires s != []
    ensures LeadCase(s) == FirstLength(s)
  {
    var k := LeadCase(s);
    if k > 0 {
      var c := Decoded(s, k);
      assert forall i :: 0 <= i < k ==> s[..k][i] == s[i];
      assert c >= 0 && IsScalar(c) && Encodes(s[..k], c);
      var j := FirstLength(s);
      assert j > 0;
      var d :| IsScalar(d) && Encodes(s[..j], d);
      PrefixCode(s, k, c, j, d);
    } else {
      forall j, c | 0 <= j <= |s| && IsScalar(c) ensures !Encodes(s[..j], c) {
        NoCaseNoEncoding(s, j, c);
      }
    }
  }

  lemma NoCaseNoEncoding(s: seq<Byte>, j: nat, c: nat)
    requires s != [] && LeadCase(s) == 0 && j <= |s| && IsScalar(c)
    ensures !Encodes(s[..j], c)
  {
    assert forall i :: 0 <= i < j ==> s[..j][i] == s[i];
  }

  method IsValidUTF8(s: seq<Byte>) returns (valid: bool)
    ensures valid <==> IsText(s)
  {
    var i: nat := 0;
    assert s[0..] == s;
    while i < |s|
      invariant i <= |s| && (IsText(s) <==> IsText(s[i..]))
    {
      ghost var rest := s[i..];
      assert forall k :: 0 <= k < |rest| ==> rest[k] == s[i + k];
      LeadCaseIsFirst(rest);
      TextByFirst(rest);
      assert forall k :: 0 <= k <= |rest| ==> rest[k..] == s[i + k..];
      var lead := s[i];
      i := i + 1;
      if lead <= 0x7F {
        continue;
      }
      if lead < 0xC2 {
        return false;
      } else if lead <= 0xDF && i + 1 <= |s| && IsTrail(s[i]) {
        i := i + 1;
      } else if 0xE0 <= lead <= 0xEF && i + 2 <= |s| && IsTrail(s[i]) && IsTrail(s[i + 1]) &&
        (lead != 0xE0 || s[i] >= 0xA0) && (lead != 0xED || s[i] < 0xA0) {
        i := i + 2;
      } else if 0xF0 <= lead <= 0xF4 && i + 3 <= |s| && IsTrail(s[i]) && IsTrail(s[i + 1]) && IsTrail(s[i + 2]) &&
        (lead != 0xF0 || s[i] >= 0x90) && (lead != 0xF4 || s[i] < 0x90) {
        i := i + 3;
      } else {
        return false;
      }
    }
    EmptyIsText();
    assert s[i..] == [];
    return true;
  }
}
