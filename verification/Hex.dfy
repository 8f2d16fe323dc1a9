/** Hexadecimal text, as the `hex` crate reads and writes it. */
module Hex {
  import opened Prelude

  function HexDigit(n: nat): (c: char)
    requires n < 16
  {
    "0123456789abcdef"[n]
  }

  function HexValue(c: char): (v: Option<nat>)
    ensures v.Some? ==> v.value < 16
  {
    if '0' <= c <= '9' then Some(c as int - '0' as int)
    else if 'a' <= c <= 'f' then Some(c as int - 'a' as int + 10)
    else if 'A' <= c <= 'F' then Some(c as int - 'A' as int + 10)
    else None
  }

  function EncodeByte(b: Byte): (pair: string)
    ensures |pair| == 2
  {
    [HexDigit(b / 16), HexDigit(b % 16)]
  }

  function DecodePair(high: char, low: char): Option<Byte> {
    if HexValue(high).Some? && HexValue(low).Some? then Some(16 * HexValue(high).value + HexValue(low).value)
    else None
  }

  function Encode(bytes: Bytes): string {
    if bytes == [] then ""
    else EncodeByte(bytes[0]) + Encode(bytes[1..])
  }

  function Decode(text: string): (bytes: Option<Bytes>)
    ensures bytes.Some? ==> |text| == 2 * |bytes.value|
  {
    if text == "" then Some([])
    else if |text| == 1 then None
    else
      var first, rest := DecodePair(text[0], text[1]), Decode(text[2..]);
      if first.Some? && rest.Some? then Some([first.value] + rest.value)
      else None
  }

  /** Text that `Encode` could have written. */
  predicate IsLowerHex(text: string) {
    |text| % 2 == 0 && forall i | 0 <= i < |text| :: IsLowerDigit(text[i])
  }

  predicate IsLowerDigit(c: char) {
    '0' <= c <= '9' || 'a' <= c <= 'f'
  }

  lemma DigitValue(n: nat)
    requires n < 16
    ensures HexValue(HexDigit(n)) == Some(n)
    ensures IsLowerDigit(HexDigit(n))
  {
  }

  lemma ValueDigit(c: char)
    requires IsLowerDigit(c)
    ensures HexValue(c).Some? && HexDigit(HexValue(c).value) == c
  {
  }

  lemma JoinNibbles(v: nat, w: nat)
    requires v < 16 && w < 16
    ensures (16 * v + w) / 16 == v && (16 * v + w) % 16 == w
  {
  }

  lemma SplitNibbles(b: Byte)
    ensures b / 16 < 16 && b % 16 < 16 && 16 * (b / 16) + b % 16 == b
  {
  }

  lemma DecodeEncodeByte(b: Byte)
    ensures DecodePair(EncodeByte(b)[0], EncodeByte(b)[1]) == Some(b)
    ensures IsLowerHex(EncodeByte(b))
  {
    SplitNibbles(b);
    DigitValue(b / 16);
    DigitValue(b % 16);
    hide HexDigit, HexValue, IsLowerDigit;
  }

  lemma EncodeDecodePair(high: char, low: char)
    requires IsLowerDigit(high) && IsLowerDigit(low)
    ensures DecodePair(high, low).Some? && EncodeByte(DecodePair(high, low).value) == [high, low]
  {
    hide HexDigit, HexValue, IsLowerDigit;
    ValueDigit(high);
    ValueDigit(low);
    JoinNibbles(HexValue(high).value, HexValue(low).value);
  }

  lemma EncodeCons(bytes: Bytes)
    requires bytes != []
    ensures Encode(bytes) == EncodeByte(bytes[0]) + Encode(bytes[1..])
  {
  }

  lemma DecodeCons(pair: string, rest: string)
    requires |pair| == 2 && DecodePair(pair[0], pair[1]).Some? && Decode(rest).Some?
    ensures Decode(pair + rest) == Some([DecodePair(pair[0], pair[1]).value] + Decode(rest).value)
  {
    assert (pair + rest)[2..] == rest;
    hide DecodePair;
  }

  lemma LowerHexConcat(a: string, b: string)
    requires IsLowerHex(a) && IsLowerHex(b)
    ensures IsLowerHex(a + b)
  {
    hide IsLowerDigit;
  }

  lemma {:induction false} DecodeEncode(bytes: Bytes)
    ensures Decode(Encode(bytes)) == Some(bytes)
    ensures |Encode(bytes)| == 2 * |bytes| && IsLowerHex(Encode(bytes))
  {
    if bytes != [] {
      hide *;
      DecodeEncode(bytes[1..]);
      DecodeEncodeByte(bytes[0]);
      EncodeCons(bytes);
      DecodeCons(EncodeByte(bytes[0]), Encode(bytes[1..]));
      LowerHexConcat(EncodeByte(bytes[0]), Encode(bytes[1..]));
      assert [bytes[0]] + bytes[1..] == bytes;
    }
  }

  lemma {:induction false} EncodeDecode(text: string)
    requires IsLowerHex(text)
    ensures Decode(text).Some? && Encode(Decode(text).value) == text
  {
    hide HexDigit, HexValue, EncodeByte, DecodePair, IsLowerDigit;
    if text != "" {
      EncodeDecode(text[2..]);
      EncodeDecodePair(text[0], text[1]);
      assert text == [text[0], text[1]] + text[2..];
    }
  }

  lemma DecodeTwo(high: char, low: char)
    ensures Decode([high, low]) == if DecodePair(high, low).Some? then Some([DecodePair(high, low).value]) else None
  {
    var text := [high, low];
    assert text[0] == high && text[1] == low && text[2..] == "";
    hide DecodePair;
    if DecodePair(high, low).Some? {
      var b := DecodePair(high, low).value;
      assert [b] + [] == [b];
    }
  }

  function LowerDigit(c: char): char {
    if 'A' <= c <= 'F' then (c as int + 32) as char else c
  }

  function LowerText(text: string): (lower: string)
    ensures |lower| == |text|
  {
    if text == "" then "" else [LowerDigit(text[0])] + LowerText(text[1..])
  }

  lemma LowerPair(high: char, low: char)
    requires DecodePair(high, low).Some?
    ensures EncodeByte(DecodePair(high, low).value) == [LowerDigit(high), LowerDigit(low)]
  {
    hide HexDigit, HexValue, LowerDigit;
    LowerValue(high);
    LowerValue(low);
    JoinNibbles(HexValue(high).value, HexValue(low).value);
  }

  /** The characters with value `n` are its digit in either case. */
  lemma DigitExact(c: char, n: nat)
    requires n < 16
    ensures HexValue(c) == Some(n) <==> LowerDigit(c) == HexDigit(n)
  {
    DigitValue(n);
  }

  lemma LowerValue(c: char)
    requires HexValue(c).Some?
    ensures HexDigit(HexValue(c).value) == LowerDigit(c)
  {
  }

  lemma {:induction false} EncodeDecoded(text: string)
    requires Decode(text).Some?
    ensures Encode(Decode(text).value) == LowerText(text)
  {
    hide HexDigit, HexValue, EncodeByte, DecodePair, LowerDigit;
    if text != "" {
      LowerPair(text[0], text[1]);
      EncodeDecoded(text[2..]);
      assert LowerText(text) == [LowerDigit(text[0])] + ([LowerDigit(text[1])] + LowerText(text[2..])) by {
        assert text[1..][1..] == text[2..];
      }
    }
  }

  /** Two hex texts decode to the same bytes exactly when they differ in case only. */
  lemma DecodeExact(a: string, b: string)
    requires Decode(a).Some? && Decode(b).Some?
    ensures Decode(a) == Decode(b) <==> LowerText(a) == LowerText(b)
  {
    hide Decode, Encode, LowerText;
    EncodeDecoded(a);
    EncodeDecoded(b);
    DecodeEncode(Decode(a).value);
    DecodeEncode(Decode(b).value);
  }
}
