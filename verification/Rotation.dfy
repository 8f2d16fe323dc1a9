/** Identity-key rotation proofs: what the two keys sign, and when a proof verifies. */
module Rotation {
  import opened Prelude
  import opened Crypto
  import opened Text

  const AUTHORIZATION_DOMAIN := "SatsPathKeyRotationAuthorizationV1"
  const ACCEPTANCE_DOMAIN := "SatsPathKeyRotationAcceptanceV1"

  datatype KeyRotation = KeyRotation(
    version: nat,
    identifierHash: string,
    previousPubkey: string,
    newPubkey: string,
    authorizationSignature: Signature<string>,
    acceptanceSignature: Signature<string>,
    previousEventHash: string,
    sequence: nat,
    rotatedAt: int)

  function RotationMessage(domain: string, identifier: string, oldPubkey: string, newPubkey: string,
                           previousEventHash: string, sequence: nat, rotatedAt: int): string
  {
    domain + "\n" + (identifier + "\n" + (oldPubkey + "\n" + (newPubkey + "\n"
      + ((previousEventHash + "\n" + Decimal(sequence)) + "\n" + Decimal(rotatedAt)))))
  }

  function MessageOf(domain: string, r: KeyRotation): string {
    RotationMessage(domain, r.identifierHash, r.previousPubkey, r.newPubkey, r.previousEventHash, r.sequence,
                    r.rotatedAt)
  }

  /** The signed text determines every field, even when the previous event hash has newlines in
      it, as long as the four leading fields are single lines. */
  lemma MessageInjective(d1: string, i1: string, o1: string, n1: string, p1: string, s1: nat, t1: int,
                         d2: string, i2: string, o2: string, n2: string, p2: string, s2: nat, t2: int)
    requires OneLine(d1) && OneLine(i1) && OneLine(o1) && OneLine(n1)
    requires OneLine(d2) && OneLine(i2) && OneLine(o2) && OneLine(n2)
    requires RotationMessage(d1, i1, o1, n1, p1, s1, t1) == RotationMessage(d2, i2, o2, n2, p2, s2, t2)
    ensures d1 == d2 && i1 == i2 && o1 == o2 && n1 == n2 && p1 == p2 && s1 == s2 && t1 == t2
  {
    var e1, e2 := (p1 + "\n" + Decimal(s1)) + "\n" + Decimal(t1), (p2 + "\n" + Decimal(s2)) + "\n" + Decimal(t2);
    hide Decimal, OneLine;
    FirstLine(d1, i1 + "\n" + (o1 + "\n" + (n1 + "\n" + e1)), d2, i2 + "\n" + (o2 + "\n" + (n2 + "\n" + e2)));
    FirstLine(i1, o1 + "\n" + (n1 + "\n" + e1), i2, o2 + "\n" + (n2 + "\n" + e2));
    FirstLine(o1, n1 + "\n" + e1, o2, n2 + "\n" + e2);
    FirstLine(n1, e1, n2, e2);
    DecimalOneLine(s1); DecimalOneLine(s2); DecimalOneLine(t1); DecimalOneLine(t2);
    LastLine(p1 + "\n" + Decimal(s1), Decimal(t1), p2 + "\n" + Decimal(s2), Decimal(t2));
    LastLine(p1, Decimal(s1), p2, Decimal(s2));
    DecimalInjective(s1, s2);
    DecimalInjective(t1, t2);
  }

  datatype Fields = Fields(domain: string, identifier: string, oldPubkey: string, newPubkey: string,
                           previousEventHash: string, sequence: nat, rotatedAt: int)

  function TextOf(f: Fields): string {
    RotationMessage(f.domain, f.identifier, f.oldPubkey, f.newPubkey, f.previousEventHash, f.sequence, f.rotatedAt)
  }

  lemma TextBreaks(f: Fields)
    ensures Breaks(TextOf(f))
            == Breaks(f.domain) + Breaks(f.identifier) + Breaks(f.oldPubkey) + Breaks(f.newPubkey)
                 + Breaks(f.previousEventHash) + 6
  {
    hide Decimal, Breaks;
    DecimalOneLine(f.sequence);
    DecimalOneLine(f.rotatedAt);
    NoBreaks(Decimal(f.sequence));
    NoBreaks(Decimal(f.rotatedAt));
    var e1 := f.previousEventHash + "\n" + Decimal(f.sequence);
    var e2 := e1 + "\n" + Decimal(f.rotatedAt);
    var e3 := f.newPubkey + "\n" + e2;
    var e4 := f.oldPubkey + "\n" + e3;
    BreaksJoined(f.previousEventHash, Decimal(f.sequence));
    BreaksJoined(e1, Decimal(f.rotatedAt));
    BreaksJoined(f.newPubkey, e2);
    BreaksJoined(f.oldPubkey, e3);
    BreaksJoined(f.identifier, e4);
    BreaksJoined(f.domain, f.identifier + "\n" + e4);
  }

  lemma OneLineText(f: Fields, g: Fields)
    requires OneLine(f.domain) && OneLine(f.identifier) && OneLine(f.oldPubkey) && OneLine(f.newPubkey)
             && OneLine(f.previousEventHash)
    requires TextOf(f) == TextOf(g)
    ensures f == g
  {
    hide Breaks, RotationMessage, OneLine;
    TextBreaks(f);
    TextBreaks(g);
    NoBreaks(f.domain); NoBreaks(f.identifier); NoBreaks(f.oldPubkey);
    NoBreaks(f.newPubkey); NoBreaks(f.previousEventHash);
    NoBreaks(g.domain); NoBreaks(g.identifier); NoBreaks(g.oldPubkey);
    NoBreaks(g.newPubkey); NoBreaks(g.previousEventHash);
    MessageInjective(f.domain, f.identifier, f.oldPubkey, f.newPubkey, f.previousEventHash, f.sequence, f.rotatedAt,
                     g.domain, g.identifier, g.oldPubkey, g.newPubkey, g.previousEventHash, g.sequence, g.rotatedAt);
  }

  lemma SlideNewKey(f: Fields, g: Fields, a: string, b: string)
    requires f.newPubkey == a + "\n" + b
    requires g == f.(newPubkey := a, previousEventHash := b + "\n" + f.previousEventHash)
    ensures g != f && TextOf(g) == TextOf(f)
  {
    hide Decimal;
    assert (f.newPubkey + "\n" + ((f.previousEventHash + "\n" + Decimal(f.sequence)) + "\n" + Decimal(f.rotatedAt)))
        == g.newPubkey + "\n" + ((g.previousEventHash + "\n" + Decimal(f.sequence)) + "\n" + Decimal(f.rotatedAt));
    assert |a| < |f.newPubkey|;
  }

  lemma SlideOldKey(f: Fields, g: Fields, a: string, b: string)
    requires f.oldPubkey == a + "\n" + b
    requires g == f.(oldPubkey := a, newPubkey := b, previousEventHash := f.newPubkey + "\n" + f.previousEventHash)
    ensures g != f && TextOf(g) == TextOf(f)
  {
    hide Decimal;
    var rest := f.(oldPubkey := a, newPubkey := b + "\n" + f.newPubkey);
    var tail := (f.previousEventHash + "\n" + Decimal(f.sequence)) + "\n" + Decimal(f.rotatedAt);
    assert f.oldPubkey + "\n" + (f.newPubkey + "\n" + tail) == a + "\n" + ((b + "\n" + f.newPubkey) + "\n" + tail);
    SlideNewKey(rest, g, b, f.newPubkey);
    assert |a| < |f.oldPubkey|;
  }

  lemma SlideIdentifier(f: Fields, g: Fields, a: string, b: string)
    requires f.identifier == a + "\n" + b
    requires g == f.(identifier := a, oldPubkey := b, newPubkey := f.oldPubkey,
                     previousEventHash := f.newPubkey + "\n" + f.previousEventHash)
    ensures g != f && TextOf(g) == TextOf(f)
  {
    hide Decimal;
    var rest := f.(identifier := a, oldPubkey := b + "\n" + f.oldPubkey);
    var tail := f.newPubkey + "\n" + ((f.previousEventHash + "\n" + Decimal(f.sequence)) + "\n" + Decimal(f.rotatedAt));
    assert f.identifier + "\n" + (f.oldPubkey + "\n" + tail) == a + "\n" + ((b + "\n" + f.oldPubkey) + "\n" + tail);
    hide TextOf, RotationMessage;
    SlideOldKey(rest, g, b, f.oldPubkey);
    assert |a| < |f.identifier|;
  }

  /** With a newline in a field the fields can slide: the part after the newline becomes the next
      field. Each of the four fields after the domain can do so without touching the domain. */
  lemma Slide(f: Fields) returns (g: Fields)
    requires !OneLine(f.identifier) || !OneLine(f.oldPubkey) || !OneLine(f.newPubkey) || !OneLine(f.previousEventHash)
    ensures g != f && g.domain == f.domain && TextOf(g) == TextOf(f)
  {
    hide *;
    var i, o, n, p := f.identifier, f.oldPubkey, f.newPubkey, f.previousEventHash;
    if !OneLine(i) {
      var a, b := SplitAtBreak(i);
      g := f.(identifier := a, oldPubkey := b, newPubkey := o, previousEventHash := n + "\n" + p);
      SlideIdentifier(f, g, a, b);
    } else if !OneLine(o) {
      var a, b := SplitAtBreak(o);
      g := f.(oldPubkey := a, newPubkey := b, previousEventHash := n + "\n" + p);
      SlideOldKey(f, g, a, b);
    } else if !OneLine(n) {
      var a, b := SplitAtBreak(n);
      g := f.(newPubkey := a, previousEventHash := b + "\n" + p);
      SlideNewKey(f, g, a, b);
    } else {
      var a, b := SplitAtBreak(p);
      g := f.(newPubkey := n + "\n" + a, previousEventHash := b);
      SlideNewKey(g, f, n, a);
    }
  }

  /** Under a one-line domain a message has one reading exactly when identifier, both keys and
      previous event hash are single lines. */
  lemma MessageUniqueExact(f: Fields)
    requires OneLine(f.domain)
    ensures (forall g: Fields :: TextOf(g) == TextOf(f) ==> g == f)
            <==> OneLine(f.identifier) && OneLine(f.oldPubkey) && OneLine(f.newPubkey) && OneLine(f.previousEventHash)
  {
    hide RotationMessage, OneLine;
    if OneLine(f.identifier) && OneLine(f.oldPubkey) && OneLine(f.newPubkey) && OneLine(f.previousEventHash) {
      forall g: Fields | TextOf(g) == TextOf(f) ensures g == f {
        OneLineText(f, g);
      }
    } else {
      var g := Slide(f);
    }
  }

  lemma DomainsDiffer()
    ensures OneLine(AUTHORIZATION_DOMAIN) && OneLine(ACCEPTANCE_DOMAIN)
    ensures AUTHORIZATION_DOMAIN != ACCEPTANCE_DOMAIN
  {
    assert AUTHORIZATION_DOMAIN[20] == 'u' && ACCEPTANCE_DOMAIN[20] == 'c';
  }

  /** What the old key authorizes can never be presented as what a new key accepted. */
  lemma AuthorizationIsNotAcceptance(a: KeyRotation, b: KeyRotation)
    requires OneLine(a.identifierHash) && OneLine(a.previousPubkey) && OneLine(a.newPubkey)
    requires OneLine(b.identifierHash) && OneLine(b.previousPubkey) && OneLine(b.newPubkey)
    ensures MessageOf(AUTHORIZATION_DOMAIN, a) != MessageOf(ACCEPTANCE_DOMAIN, b)
  {
    DomainsDiffer();
    if MessageOf(AUTHORIZATION_DOMAIN, a) == MessageOf(ACCEPTANCE_DOMAIN, b) {
      MessageInjective(AUTHORIZATION_DOMAIN, a.identifierHash, a.previousPubkey, a.newPubkey, a.previousEventHash,
                       a.sequence, a.rotatedAt,
                       ACCEPTANCE_DOMAIN, b.identifierHash, b.previousPubkey, b.newPubkey, b.previousEventHash,
                       b.sequence, b.rotatedAt);
    }
  }

  function Create(identifierHash: string, previousPubkey: string, oldSecret: SecretKey, newPubkey: string,
                  newSecret: SecretKey, previousEventHash: string, sequence: nat, now: int): KeyRotation
  {
    KeyRotation(
      1, identifierHash, previousPubkey, newPubkey,
      Sign(RotationMessage(AUTHORIZATION_DOMAIN, identifierHash, previousPubkey, newPubkey, previousEventHash,
                           sequence, now), oldSecret),
      Sign(RotationMessage(ACCEPTANCE_DOMAIN, identifierHash, previousPubkey, newPubkey, previousEventHash, sequence,
                           now), newSecret),
      previousEventHash, sequence, now)
  }

  function Verify(r: KeyRotation): Result<bool, CryptoError> {
    if r.version != 1 || r.identifierHash == "" || r.previousEventHash == "" || r.sequence == 0
       || r.acceptanceSignature.Empty?
    then Ok(false)
    else
      match VerifyMessage(MessageOf(AUTHORIZATION_DOMAIN, r), r.authorizationSignature, r.previousPubkey)
      case Err(e) => Err(e)
      case Ok(false) => Ok(false)
      case Ok(true) => VerifyMessage(MessageOf(ACCEPTANCE_DOMAIN, r), r.acceptanceSignature, r.newPubkey)
  }

  /** A proof verifies exactly when it is well formed and both keys signed it. */
  lemma VerifyExact(r: KeyRotation)
    ensures Verify(r) == Ok(true) <==>
            && r.version == 1 && r.identifierHash != "" && r.previousEventHash != "" && r.sequence > 0
            && SignerOf(r.previousPubkey).Some? && SignerOf(r.newPubkey).Some?
            && r.authorizationSignature == Signed(SignerOf(r.previousPubkey).value, MessageOf(AUTHORIZATION_DOMAIN, r))
            && r.acceptanceSignature == Signed(SignerOf(r.newPubkey).value, MessageOf(ACCEPTANCE_DOMAIN, r))
  {
  }

  /** The fields are present, and the holders of the previous and of the new key both signed them,
      each in its own domain. */
  predicate Proven(r: KeyRotation) {
    && r.version == 1 && r.identifierHash != "" && r.previousEventHash != "" && r.sequence > 0
    && SignedFor(r.previousPubkey, r.authorizationSignature,
                 RotationMessage(AUTHORIZATION_DOMAIN, r.identifierHash, r.previousPubkey, r.newPubkey,
                                 r.previousEventHash, r.sequence, r.rotatedAt))
    && SignedFor(r.newPubkey, r.acceptanceSignature,
                 RotationMessage(ACCEPTANCE_DOMAIN, r.identifierHash, r.previousPubkey, r.newPubkey,
                                 r.previousEventHash, r.sequence, r.rotatedAt))
  }

  lemma ProvenExact(r: KeyRotation)
    ensures Verify(r) == Ok(true) <==> Proven(r)
    ensures r.acceptanceSignature.Empty? ==> Verify(r) == Ok(false)
  {
    hide RotationMessage, VerifyMessage, SignedFor;
    VerifyMessageExact(MessageOf(AUTHORIZATION_DOMAIN, r), r.authorizationSignature, r.previousPubkey);
    VerifyMessageExact(MessageOf(ACCEPTANCE_DOMAIN, r), r.acceptanceSignature, r.newPubkey);
    if r.acceptanceSignature.Empty? {
      EmptyUnsigned(r.newPubkey, r.acceptanceSignature, MessageOf(ACCEPTANCE_DOMAIN, r));
    }
  }

  lemma EmptyUnsigned(pubkey: string, signature: Signature<string>, message: string)
    requires signature.Empty?
    ensures !SignedFor(pubkey, signature, message)
  {
  }

  /** One authorization signature proves one rotation: same keys, identifier, predecessor,
      sequence and time. */
  lemma AuthorizationDeterminesRotation(a: KeyRotation, b: KeyRotation)
    requires Verify(a) == Ok(true) && Verify(b) == Ok(true)
    requires OneLine(a.identifierHash) && OneLine(b.identifierHash)
    requires a.authorizationSignature == b.authorizationSignature
    ensures a.identifierHash == b.identifierHash && a.previousPubkey == b.previousPubkey && a.newPubkey == b.newPubkey
    ensures a.previousEventHash == b.previousEventHash && a.sequence == b.sequence && a.rotatedAt == b.rotatedAt
    ensures a.acceptanceSignature == b.acceptanceSignature
  {
    VerifyExact(a);
    VerifyExact(b);
    DomainsDiffer();
    HexIsOneLine(a.previousPubkey); HexIsOneLine(a.newPubkey);
    HexIsOneLine(b.previousPubkey); HexIsOneLine(b.newPubkey);
    hide RotationMessage, Verify, SignerOf, OneLine;
    MessageInjective(AUTHORIZATION_DOMAIN, a.identifierHash, a.previousPubkey, a.newPubkey, a.previousEventHash,
                     a.sequence, a.rotatedAt,
                     AUTHORIZATION_DOMAIN, b.identifierHash, b.previousPubkey, b.newPubkey, b.previousEventHash,
                     b.sequence, b.rotatedAt);
  }

  ghost predicate SameRotation(a: KeyRotation, b: KeyRotation) {
    && a.identifierHash == b.identifierHash && a.previousPubkey == b.previousPubkey && a.newPubkey == b.newPubkey
    && a.previousEventHash == b.previousEventHash && a.sequence == b.sequence && a.rotatedAt == b.rotatedAt
  }

  /** Two verified proofs with one authorization signature are one rotation exactly when their
      identifiers have equally many newlines; in particular when both are single lines. */
  lemma AuthorizationExact(a: KeyRotation, b: KeyRotation)
    requires Verify(a) == Ok(true) && Verify(b) == Ok(true)
    requires a.authorizationSignature == b.authorizationSignature
    ensures SameRotation(a, b) <==> Breaks(a.identifierHash) == Breaks(b.identifierHash)
  {
    VerifyExact(a);
    VerifyExact(b);
    DomainsDiffer();
    HexIsOneLine(a.previousPubkey); HexIsOneLine(a.newPubkey);
    HexIsOneLine(b.previousPubkey); HexIsOneLine(b.newPubkey);
    if Breaks(a.identifierHash) == Breaks(b.identifierHash) {
      SameBreaksSameFields(a, b);
    }
  }

  lemma SameBreaksSameFields(a: KeyRotation, b: KeyRotation)
    requires MessageOf(AUTHORIZATION_DOMAIN, a) == MessageOf(AUTHORIZATION_DOMAIN, b)
    requires OneLine(AUTHORIZATION_DOMAIN) && Breaks(a.identifierHash) == Breaks(b.identifierHash)
    requires OneLine(a.previousPubkey) && OneLine(a.newPubkey) && OneLine(b.previousPubkey) && OneLine(b.newPubkey)
    ensures SameRotation(a, b)
  {
    hide Decimal, OneLine, Breaks;
    var e1 := (a.previousEventHash + "\n" + Decimal(a.sequence)) + "\n" + Decimal(a.rotatedAt);
    var e2 := (b.previousEventHash + "\n" + Decimal(b.sequence)) + "\n" + Decimal(b.rotatedAt);
    var n1, n2 := a.newPubkey + "\n" + e1, b.newPubkey + "\n" + e2;
    var o1, o2 := a.previousPubkey + "\n" + n1, b.previousPubkey + "\n" + n2;
    FirstLine(AUTHORIZATION_DOMAIN, a.identifierHash + "\n" + o1, AUTHORIZATION_DOMAIN, b.identifierHash + "\n" + o2);
    LinesSplit(a.identifierHash, o1, b.identifierHash, o2);
    FirstLine(a.previousPubkey, n1, b.previousPubkey, n2);
    FirstLine(a.newPubkey, e1, b.newPubkey, e2);
    DecimalOneLine(a.sequence); DecimalOneLine(b.sequence); DecimalOneLine(a.rotatedAt); DecimalOneLine(b.rotatedAt);
    LastLine(a.previousEventHash + "\n" + Decimal(a.sequence), Decimal(a.rotatedAt),
             b.previousEventHash + "\n" + Decimal(b.sequence), Decimal(b.rotatedAt));
    LastLine(a.previousEventHash, Decimal(a.sequence), b.previousEventHash, Decimal(b.sequence));
    DecimalInjective(a.sequence, b.sequence);
    DecimalInjective(a.rotatedAt, b.rotatedAt);
  }

  lemma JoinedText(d: string, i: string, o: string, n: string, p: string, sequence: nat, rotatedAt: int)
    ensures RotationMessage(d, i, o, n, p, sequence, rotatedAt)
            == d + ("\n" + i) + ("\n" + o) + ("\n" + n) + ("\n" + p) + ("\n" + Decimal(sequence))
                 + ("\n" + Decimal(rotatedAt))
  {
    hide Decimal;
    var t := p + "\n" + Decimal(sequence) + "\n" + Decimal(rotatedAt);
    assert n + "\n" + t == n + ("\n" + p) + ("\n" + Decimal(sequence)) + ("\n" + Decimal(rotatedAt));
    assert o + "\n" + (n + "\n" + t)
             == o + ("\n" + n) + ("\n" + p) + ("\n" + Decimal(sequence)) + ("\n" + Decimal(rotatedAt));
    assert i + "\n" + (o + "\n" + (n + "\n" + t))
        == i + ("\n" + o) + ("\n" + n) + ("\n" + p) + ("\n" + Decimal(sequence)) + ("\n" + Decimal(rotatedAt));
  }

  /** Without that condition one authorization does serve two rotations: the old key's consent to
      a new key, under an identifier of two lines, is also its consent to itself under the first
      of them. */
  lemma {:induction false} AuthorizationReused(name: string, oldSecret: SecretKey, newSecret: SecretKey,
          sequence: nat, now: int)
    returns (a: KeyRotation, b: KeyRotation)
    requires name != "" && sequence > 0
    ensures Verify(a) == Ok(true) && Verify(b) == Ok(true) && a.authorizationSignature == b.authorizationSignature
    ensures a.newPubkey == PublicHex(newSecret) && b.newPubkey == PublicHex(oldSecret)
            && a.identifierHash != b.identifierHash
  {
    hide PublicHex, RotationMessage;
    var o, n := PublicHex(oldSecret), PublicHex(newSecret);
    PublicHexDecodes(oldSecret);
    PublicHexDecodes(newSecret);
    a := Create(name + "\n" + o, o, oldSecret, n, newSecret, "h", sequence, now);
    b := Create(name, o, oldSecret, o, oldSecret, n + "\n" + "h", sequence, now);
    JoinedText(AUTHORIZATION_DOMAIN, name + "\n" + o, o, n, "h", sequence, now);
    JoinedText(AUTHORIZATION_DOMAIN, name, o, o, n + "\n" + "h", sequence, now);
    SameJoined(AUTHORIZATION_DOMAIN, name, o, o, n, "h", "\n" + Decimal(sequence), "\n" + Decimal(now));
    assert |name + "\n" + o| > |name|;
  }

  lemma SameJoined(d: string, a: string, b: string, c: string, e: string, p: string, s: string, t: string)
    ensures d + ("\n" + (a + "\n" + b)) + ("\n" + c) + ("\n" + e) + ("\n" + p) + s + t
            == d + ("\n" + a) + ("\n" + b) + ("\n" + c) + ("\n" + (e + "\n" + p)) + s + t
  {
  }
}
