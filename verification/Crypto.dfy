/** Symbolic BIP-340 Schnorr signatures over secp256k1.

    A public key on the wire is hex text; verification only looks at the x coordinate it decodes
    to, so several texts name one signer. A signature is the pair of the signer and the exact
    message signed, and only the holder of a secret key can make one.
  */
module Crypto {
  import opened Prelude
  import Hex
  import Text

  type Point = x: Bytes | |x| == 32 witness seq(32, _ => 0)

  datatype Signature<M> =
    | Empty
    | Unparsable
    | Signed(signer: Point, message: M)

  datatype CryptoError = InvalidPublicKey | InvalidSignatureText

  datatype SecretKey = SecretKey(odd: bool, x: Point)

  /** 33-byte compressed, or 65-byte uncompressed and hybrid, encodings. */
  function ParsePublicKey(bytes: Bytes): Option<Point> {
    if |bytes| == 33 && (bytes[0] == 2 || bytes[0] == 3) then Some(bytes[1..])
    else if |bytes| == 65 && (bytes[0] == 4 || bytes[0] == 6 || bytes[0] == 7) then Some(bytes[1..33])
    else None
  }

  /** The signer a message signature is checked against: 32 bytes are read as an x-only key. */
  function SignerOf(pubkeyHex: string): Option<Point> {
    var bytes := Hex.Decode(pubkeyHex);
    if bytes.None? then None
    else if |bytes.value| == 32 then Some(bytes.value)
    else ParsePublicKey(bytes.value)
  }

  predicate Matches<M(==)>(message: M, signature: Signature<M>, signer: Point) {
    signature == Signed(signer, message)
  }

  function VerifyMessage<M(==)>(message: M, signature: Signature<M>, pubkeyHex: string): Result<bool, CryptoError> {
    if SignerOf(pubkeyHex).None? then Err(InvalidPublicKey)
    else if !signature.Signed? then Err(InvalidSignatureText)
    else Ok(Matches(message, signature, SignerOf(pubkeyHex).value))
  }

  predicate IsCompressedPubkey(pubkeyHex: string) {
    var bytes := Hex.Decode(pubkeyHex);
    bytes.Some? && |bytes.value| == 33 && (bytes.value[0] == 2 || bytes.value[0] == 3)
  }

  function PublicHex(secret: SecretKey): string {
    Hex.Encode([if secret.odd then 3 else 2] + secret.x)
  }

  function Sign<M>(message: M, secret: SecretKey): Signature<M> {
    Signed(secret.x, message)
  }

  /** The text is the hex form of a key with this x coordinate: x-only, compressed, or one of the
      65-byte forms. */
  predicate Names(pubkeyHex: string, x: Point) {
    var bytes := Hex.Decode(pubkeyHex);
    && bytes.Some?
    && (bytes.value == x || bytes.value == [2] + x || bytes.value == [3] + x
        || (|bytes.value| == 65 && bytes.value[0] in {4, 6, 7} && bytes.value[1..33] == x))
  }

  /** Made over exactly this message, by the holder of the key that the text names. */
  predicate SignedFor<M(==)>(pubkeyHex: string, signature: Signature<M>, message: M) {
    signature.Signed? && signature.message == message && Names(pubkeyHex, signature.signer)
  }

  lemma SignerExact(pubkeyHex: string, x: Point)
    ensures SignerOf(pubkeyHex) == Some(x) <==> Names(pubkeyHex, x)
  {
    hide Hex.Decode;
    var bytes := Hex.Decode(pubkeyHex);
    if bytes.Some? && |bytes.value| == 33 {
      assert bytes.value == [bytes.value[0]] + bytes.value[1..];
    }
  }

  /** A signature check says yes exactly for a signature by the named key over the message. */
  lemma VerifyMessageExact<M>(message: M, signature: Signature<M>, pubkeyHex: string)
    ensures VerifyMessage(message, signature, pubkeyHex) == Ok(true) <==> SignedFor(pubkeyHex, signature, message)
    ensures VerifyMessage(message, signature, pubkeyHex) == Err(InvalidPublicKey)
        <==> forall x: Point :: !Names(pubkeyHex, x)
    ensures VerifyMessage(message, signature, pubkeyHex) == Err(InvalidSignatureText)
        <==> (exists x: Point :: Names(pubkeyHex, x)) && !signature.Signed?
  {
    hide SignerOf, Names;
    forall x: Point ensures SignerOf(pubkeyHex) == Some(x) <==> Names(pubkeyHex, x) {
      SignerExact(pubkeyHex, x);
    }
    if SignerOf(pubkeyHex).Some? {
      var x := SignerOf(pubkeyHex).value;
      assert Names(pubkeyHex, x);
    }
  }

  lemma PublicHexDecodes(secret: SecretKey)
    ensures IsCompressedPubkey(PublicHex(secret)) && SignerOf(PublicHex(secret)) == Some(secret.x)
    ensures Hex.Decode(PublicHex(secret)) == Some(if secret.odd then [3] + secret.x else [2] + secret.x)
  {
    var bytes: Bytes := [if secret.odd then 3 else 2] + secret.x;
    Hex.DecodeEncode(bytes);
    assert bytes[1..] == secret.x;
  }

  lemma {:induction false} HexIsOneLine(text: string)
    requires Hex.Decode(text).Some?
    ensures Text.OneLine(text)
  {
    if text != "" {
      HexIsOneLine(text[2..]);
      assert text == [text[0], text[1]] + text[2..];
    }
  }
}
