/** Valid UTF-8, as the standard library checks it (Unicode Table 3-7). Text is a byte sequence. */
module Utf8 {
  import opened Prelude

  predicate Continues(b: Byte) {
    0x80 <= b <= 0xBF
  }

  predicate ThreeByteStart(b0: Byte, b1: Byte) {
    (b0 == 0xE0 && 0xA0 <= b1 <= 0xBF)
    || (0xE1 <= b0 <= 0xEC && Continues(b1))
    || (b0 == 0xED && 0x80 <= b1 <= 0x9F)
    || (0xEE <= b0 <= 0xEF && Continues(b1))
  }

  predicate FourByteStart(b0: Byte, b1: Byte) {
    (b0 == 0xF0 && 0x90 <= b1 <= 0xBF)
    || (0xF1 <= b0 <= 0xF3 && Continues(b1))
    || (b0 == 0xF4 && 0x80 <= b1 <= 0x8F)
  }

  /** The length of the character that the bytes start with, or 0 if they start with none. */
  function CharLength(bytes: Bytes): (n: nat)
    ensures n <= 4 && n <= |bytes|
  {
    if bytes == [] then 0
    else if bytes[0] < 0x80 then 1
    else if |bytes| >= 2 && 0xC2 <= bytes[0] <= 0xDF && Continues(bytes[1]) then 2
    else if |bytes| >= 3 && ThreeByteStart(bytes[0], bytes[1]) && Continues(bytes[2]) then 3
    else if |bytes| >= 4 && FourByteStart(bytes[0], bytes[1]) && Continues(bytes[2]) && Continues(bytes[3]) then 4
    else 0
  }

  predicate Valid(bytes: Bytes)
    decreases |bytes|
  {
    bytes == [] || (CharLength(bytes) > 0 && Valid(bytes[CharLength(bytes)..]))
  }

  /** The first character does not depend on what follows it. */
  lemma CharLengthLocal(bytes: Bytes, n: nat)
    requires CharLength(bytes) > 0 && CharLength(bytes) <= n <= |bytes|
    ensures CharLength(bytes[..n]) == CharLength(bytes)
  {
  }

  lemma CharLengthGrows(bytes: Bytes, n: nat)
    requires n <= |bytes| && CharLength(bytes[..n]) > 0
    ensures CharLength(bytes) == CharLength(bytes[..n])
  {
  }

  lemma {:induction false} ValidConcat(a: Bytes, b: Bytes)
    requires Valid(a)
    ensures Valid(a + b) <==> Valid(b)
    decreases |a|
  {
    if a == [] {
      assert a + b == b;
    } else {
      var n := CharLength(a);
      assert (a + b)[..|a|] == a;
      CharLengthGrows(a + b, |a|);
      assert (a + b)[n..] == a[n..] + b;
      ValidConcat(a[n..], b);
    }
  }

  /** Cutting valid text at a byte limit: some cut at most three bytes earlier leaves a valid,
      nonempty beginning. */
  lemma {:induction false} CutPoint(bytes: Bytes, limit: nat) returns (cut: nat)
    requires Valid(bytes) && 4 <= limit <= |bytes|
    ensures limit - 3 <= cut <= limit && Valid(bytes[..cut]) && Valid(bytes[cut..])
    decreases |bytes|
  {
    var n := CharLength(bytes);
    assert Valid(bytes[n..]);
    assert bytes[..n] + bytes[n..] == bytes;
    CharLengthLocal(bytes, n);
    assert Valid(bytes[..n]) by {
      assert bytes[..n][n..] == [];
    }
    if limit - n < 4 {
      cut := n;
    } else {
      var rest := CutPoint(bytes[n..], limit - n);
      cut := n + rest;
      assert bytes[..cut] == bytes[..n] + bytes[n..][..rest] && bytes[cut..] == bytes[n..][rest..];
      ValidConcat(bytes[..n], bytes[n..][..rest]);
    }
  }

  // ---------------------------------------------------------------------------------------
  // Characters
  // ---------------------------------------------------------------------------------------

  /** A Unicode scalar value: a code point that is no surrogate. */
  type Scalar = c: nat | c < 0xD800 || 0xE000 <= c < 0x11_0000

  function EncodeScalar(c: Scalar): (bytes: Bytes)
    ensures 1 <= |bytes| <= 4
  {
    if c < 0x80 then [c]
    else if c < 0x800 then [0xC0 + c / 64, 0x80 + c % 64]
    else if c < 0x1_0000 then [0xE0 + c / 4096, 0x80 + c / 64 % 64, 0x80 + c % 64]
    else [0xF0 + c / 262_144, 0x80 + c / 4096 % 64, 0x80 + c / 64 % 64, 0x80 + c % 64]
  }

  function EncodeText(text: seq<Scalar>): Bytes {
    if text == [] then [] else EncodeScalar(text[0]) + EncodeText(text[1..])
  }

  lemma Digits64(c: nat)
    ensures c == 64 * (c / 64) + c % 64
    ensures c / 64 == 64 * (c / 4096) + c / 64 % 64
    ensures c / 4096 == 64 * (c / 262_144) + c / 4096 % 64
  {
    assert c / 64 / 64 == c / 4096;
    assert c / 4096 / 64 == c / 262_144;
  }

  lemma ScalarLength(c: Scalar, rest: Bytes)
    ensures CharLength(EncodeScalar(c) + rest) == |EncodeScalar(c)|
  {
    Digits64(c);
    if c >= 0x80 {
      var bytes := EncodeScalar(c) + rest;
      assert bytes[0] == EncodeScalar(c)[0] && bytes[1] == EncodeScalar(c)[1];
    }
  }

  lemma TwoDigits(high: nat, low: nat)
    requires low < 64
    ensures (64 * high + low) / 64 == high && (64 * high + low) % 64 == low
  {
  }

  lemma TwoBytes(b0: nat, b1: nat) returns (c: Scalar)
    requires 0xC2 <= b0 <= 0xDF && 0x80 <= b1 <= 0xBF
    ensures EncodeScalar(c) == [b0, b1]
  {
    c := 64 * (b0 - 0xC0) + (b1 - 0x80);
    TwoDigits(b0 - 0xC0, b1 - 0x80);
  }

  lemma ThreeBytes(b0: Byte, b1: Byte, b2: Byte) returns (c: Scalar)
    requires ThreeByteStart(b0, b1) && Continues(b2)
    ensures EncodeScalar(c) == [b0, b1, b2]
  {
    var x: nat, y: nat, z: nat := b0 - 0xE0, b1 - 0x80, b2 - 0x80;
    var high := 64 * x + y;
    c := 64 * high + z;
    TwoDigits(x, y);
    TwoDigits(high, z);
    Digits64(c);
  }

  lemma FourBytes(b0: Byte, b1: Byte, b2: Byte, b3: Byte) returns (c: Scalar)
    requires FourByteStart(b0, b1) && Continues(b2) && Continues(b3)
    ensures EncodeScalar(c) == [b0, b1, b2, b3]
  {
    var w: nat, x: nat, y: nat, z: nat := b0 - 0xF0, b1 - 0x80, b2 - 0x80, b3 - 0x80;
    var top := 64 * w + x;
    var high := 64 * top + y;
    c := 64 * high + z;
    TwoDigits(w, x);
    TwoDigits(top, y);
    TwoDigits(high, z);
    Digits64(c);
  }

  /** The scalar value of the first character. */
  lemma ScalarOf(bytes: Bytes) returns (c: Scalar)
    requires CharLength(bytes) > 0
    ensures EncodeScalar(c) == bytes[..CharLength(bytes)]
  {
    var n := CharLength(bytes);
    if n == 1 {
      c := bytes[0];
      return;
    }
    hide EncodeScalar, ThreeByteStart, FourByteStart;
    if n == 2 {
      c := TwoBytes(bytes[0], bytes[1]);
    } else if n == 3 {
      c := ThreeBytes(bytes[0], bytes[1], bytes[2]);
    } else {
      c := FourBytes(bytes[0], bytes[1], bytes[2], bytes[3]);
    }
  }

  lemma {:induction false} EncodedValid(text: seq<Scalar>)
    ensures Valid(EncodeText(text))
  {
    if text != [] {
      hide CharLength, EncodeScalar;
      EncodedValid(text[1..]);
      var first, rest := EncodeScalar(text[0]), EncodeText(text[1..]);
      ScalarLength(text[0], rest);
      assert (first + rest)[|first|..] == rest;
    }
  }

  lemma ValidStep(bytes: Bytes) returns (n: nat)
    requires Valid(bytes) && bytes != []
    ensures 0 < n == CharLength(bytes) && Valid(bytes[n..])
  {
    n := CharLength(bytes);
    hide CharLength;
  }

  lemma EncodeStep(c: Scalar, rest: seq<Scalar>)
    ensures EncodeText([c] + rest) == EncodeScalar(c) + EncodeText(rest)
  {
    hide EncodeScalar;
    assert ([c] + rest)[1..] == rest;
  }

  lemma EncodeNothing()
    ensures EncodeText([]) == []
  {
  }

  lemma {:induction false} ValidEncoded(bytes: Bytes) returns (text: seq<Scalar>)
    requires Valid(bytes)
    ensures EncodeText(text) == bytes
    decreases |bytes|
  {
    hide *;
    text := [];
    EncodeNothing();
    if bytes != [] {
      var n := ValidStep(bytes);
      var c := ScalarOf(bytes);
      text := ValidEncoded(bytes[n..]);
      EncodeStep(c, text);
      text := [c] + text;
      assert bytes == bytes[..n] + bytes[n..];
    }
  }

  /** Bytes are valid exactly when they encode a text of scalar values. */
  lemma ValidExact(bytes: Bytes)
    ensures Valid(bytes) <==> exists text: seq<Scalar> :: EncodeText(text) == bytes
  {
    hide Valid, EncodeText;
    if Valid(bytes) {
      var text := ValidEncoded(bytes);
    }
    if text: seq<Scalar> :| EncodeText(text) == bytes {
      EncodedValid(text);
    }
  }
}
