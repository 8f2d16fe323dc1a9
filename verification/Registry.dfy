/** The local identity registry: signed profiles under hashed aliases, the rules for replacing
    them, and what those rules keep over whole histories.
  */
module Registry {
  import opened Prelude
  import opened Crypto
  import Hex
  import Rotation

  // ---------------------------------------------------------------------------------------
  // Profiles
  // ---------------------------------------------------------------------------------------

  /** `content` stands for the payment methods, preferences and other fields that the registry
      only passes on. */
  datatype PaymentProfile = PaymentProfile(
    alias: string,
    identityPubkey: string,
    content: nat,
    updatedAt: int,
    expiresAt: Option<int>,
    sequence: Option<U64>,
    rotation: Option<Rotation.KeyRotation>,
    hybridPubkey: Option<nat>,
    pqcRequired: bool,
    revoked: bool)

  /** A post-quantum signature made by the holder of hybrid key `key`. */
  datatype HybridSignature = HybridSignature(key: nat, profile: PaymentProfile)

  datatype SignedProfile = SignedProfile(
    profile: PaymentProfile,
    signature: Signature<PaymentProfile>,
    hybridSignature: Option<HybridSignature>)

  datatype Error =
    | NonAscii
    | AliasMismatch
    | BadPubkey
    | Expired
    | PrivateMaterial
    | Unreadable(cause: CryptoError)
    | InvalidSignature
    | AlreadyRegistered
    | UnauthorizedKeyReplacement
    | InvalidRotation
    | Older
    | SequenceNotGreater
    | SequenceRemoved
    | NotFound
    | IsRevoked
    | SaveFailed

  /** What a call meets outside the registry: the clock, whether the written profile's text passes
      the private-material screen, and whether the file can be saved. */
  datatype Env = Env(now: int, clean: bool, saves: bool)

  function SequenceOf(p: PaymentProfile): nat {
    if p.sequence.Some? then p.sequence.value else 0
  }

  function NextSequence(p: PaymentProfile): nat {
    if SequenceOf(p) == U64_MAX then U64_MAX else SequenceOf(p) + 1
  }

  // ---------------------------------------------------------------------------------------
  // Identifiers
  // ---------------------------------------------------------------------------------------

  predicate IsSpace(c: char) {
    var n := c as int;
    9 <= n <= 13 || n == 32 || n == 0x85 || n == 0xA0 || n == 0x1680 || 0x2000 <= n <= 0x200A
    || n == 0x2028 || n == 0x2029 || n == 0x202F || n == 0x205F || n == 0x3000
  }

  function TrimStart(s: string): (t: string)
    ensures t == "" || !IsSpace(t[0])
  {
    if s != "" && IsSpace(s[0]) then TrimStart(s[1..]) else s
  }

  function TrimEnd(s: string): (t: string)
    ensures t <= s
    ensures t == "" || !IsSpace(t[|t| - 1])
  {
    if s != "" && IsSpace(s[|s| - 1]) then TrimEnd(s[..|s| - 1]) else s
  }

  function Trim(s: string): string {
    TrimEnd(TrimStart(s))
  }

  function LowerChar(c: char): char {
    if 'A' <= c <= 'Z' then (c as int + 32) as char else c
  }

  function Lower(s: string): (t: string)
    ensures |t| == |s| && forall i | 0 <= i < |s| :: t[i] == LowerChar(s[i])
  {
    seq(|s|, i requires 0 <= i < |s| => LowerChar(s[i]))
  }

  function Canonical(identifier: string): string {
    Lower(Trim(identifier))
  }

  predicate IsAscii(s: string) {
    forall c | c in Trim(s) :: c as int < 128
  }

  /** The characters of the Unicode property White_Space. */
  lemma SpacesExact(c: char)
    ensures IsSpace(c) <==>
            c as int in {0x09, 0x0A, 0x0B, 0x0C, 0x0D, 0x20, 0x85, 0xA0, 0x1680, 0x2000, 0x2001, 0x2002, 0x2003, 0x2004,
                         0x2005, 0x2006, 0x2007, 0x2008, 0x2009, 0x200A, 0x2028, 0x2029, 0x202F, 0x205F, 0x3000}
  {
  }

  function CharBytes(c: char): (bytes: Bytes)
    ensures |bytes| == 3
  {
    var n := c as int;
    [n / 65536 % 256, n / 256 % 256, n % 256]
  }

  function StringBytes(s: string): Bytes {
    if s == "" then [] else CharBytes(s[0]) + StringBytes(s[1..])
  }

  /** Stands for the keyed hash of the canonical identifier: hex text, never empty, that differs
      for different identifiers. */
  function IdentifierHash(identifier: string): string {
    Hex.Encode(StringBytes(Canonical(identifier)) + [0])
  }

  /** Entries written by this code are stored under the hash; older files used the alias itself.
      Both kinds of key share one map, where an alias may be spelled like a hash. */
  type Profiles = map<string, SignedProfile>

  function Find(profiles: Profiles, alias: string): Option<SignedProfile> {
    if IdentifierHash(alias) in profiles then Some(profiles[IdentifierHash(alias)])
    else if alias in profiles then Some(profiles[alias])
    else None
  }

  // ---------------------------------------------------------------------------------------
  // Write rules
  // ---------------------------------------------------------------------------------------

  function VerifySigned(signed: SignedProfile): Result<bool, CryptoError> {
    var bytes := Hex.Decode(signed.profile.identityPubkey);
    if bytes.None? || ParsePublicKey(bytes.value).None? then Err(InvalidPublicKey)
    else if !signed.signature.Signed? then Err(InvalidSignatureText)
    else if !Matches(signed.profile, signed.signature, ParsePublicKey(bytes.value).value) then Ok(false)
    else if signed.profile.hybridPubkey.Some? && signed.hybridSignature.Some? then
      Ok(signed.hybridSignature.value == HybridSignature(signed.profile.hybridPubkey.value, signed.profile))
    else Ok(!signed.profile.pqcRequired)
  }

  predicate Lapsed(p: PaymentProfile, now: int) {
    p.expiresAt.Some? && now >= p.expiresAt.value + 60
  }

  function ValidateWrite(requested: string, signed: SignedProfile, env: Env): Result<(), Error> {
    if !IsAscii(requested) || !IsAscii(signed.profile.alias) then Err(NonAscii)
    else if Canonical(requested) != Canonical(signed.profile.alias)
            || signed.profile.alias != Canonical(signed.profile.alias) then
      Err(AliasMismatch)
    else if !IsCompressedPubkey(signed.profile.identityPubkey) then Err(BadPubkey)
    else if Lapsed(signed.profile, env.now) then Err(Expired)
    else if !env.clean then Err(PrivateMaterial)
    else match VerifySigned(signed)
      case Err(e) => Err(Unreadable(e))
      case Ok(false) => Err(InvalidSignature)
      case Ok(true) => Ok(())
  }

  function CheckKeyChange(alias: string, existing: PaymentProfile, p: PaymentProfile): Result<(), Error> {
    if p.identityPubkey != existing.identityPubkey then
      if p.rotation.None? then Err(UnauthorizedKeyReplacement)
      else
        var r := p.rotation.value;
        if r.previousPubkey != existing.identityPubkey || r.newPubkey != p.identityPubkey
           || r.identifierHash != IdentifierHash(alias)
           || r.sequence != SequenceOf(p) || r.sequence != NextSequence(existing)
           || r.previousEventHash == ""
        then Err(InvalidRotation)
        else match Rotation.Verify(r)
          case Err(e) => Err(Unreadable(e))
          case Ok(false) => Err(InvalidRotation)
          case Ok(true) => Ok(())
    else if p.rotation.Some? then Err(InvalidRotation)
    else Ok(())
  }

  function CheckSequence(existing: PaymentProfile, p: PaymentProfile): Result<(), Error> {
    if p.sequence.Some? && existing.sequence.Some? then
      if p.sequence.value <= existing.sequence.value then Err(SequenceNotGreater) else Ok(())
    else if p.sequence.None? && existing.sequence.Some? then Err(SequenceRemoved)
    else Ok(())
  }

  function CheckReplacement(alias: string, existing: PaymentProfile, p: PaymentProfile): Result<(), Error> {
    var keys := CheckKeyChange(alias, existing, p);
    if keys.Err? then keys
    else if p.updatedAt < existing.updatedAt then Err(Older)
    else CheckSequence(existing, p)
  }

  /** The verdict on an update before the file is saved. */
  function CheckUpdate(profiles: Profiles, requested: string, signed: SignedProfile, env: Env): Result<(), Error> {
    var valid := ValidateWrite(requested, signed, env);
    var existing := Find(profiles, Canonical(signed.profile.alias));
    if valid.Err? then valid
    else if existing.None? then Ok(())
    else CheckReplacement(Canonical(signed.profile.alias), existing.value.profile, signed.profile)
  }

  function CheckRegister(profiles: Profiles, requested: string, signed: SignedProfile, env: Env): Result<(), Error> {
    var valid := ValidateWrite(requested, signed, env);
    if valid.Err? then valid
    else if Find(profiles, Canonical(signed.profile.alias)).Some? then Err(AlreadyRegistered)
    else Ok(())
  }

  function Stored(profiles: Profiles, signed: SignedProfile): Profiles {
    profiles[IdentifierHash(Canonical(signed.profile.alias)) := signed]
  }

  /** The profile's own key signed exactly this profile; its hybrid key did too where the profile
      demands it, and wherever both the key and a hybrid signature are there. */
  predicate SelfSigned(signed: SignedProfile) {
    var p := signed.profile;
    && SignedFor(p.identityPubkey, signed.signature, p)
    && (p.pqcRequired ==> p.hybridPubkey.Some? && signed.hybridSignature.Some?)
    && (p.hybridPubkey.Some? && signed.hybridSignature.Some? ==>
          signed.hybridSignature.value.key == p.hybridPubkey.value && signed.hybridSignature.value.profile == p)
  }

  /** The profile may be written under the requested identifier now. */
  predicate Writable(requested: string, signed: SignedProfile, env: Env) {
    var p := signed.profile;
    && Canonical(requested) == p.alias == Canonical(p.alias) && (forall c | c in p.alias :: c as int < 128)
    && IsCompressedPubkey(p.identityPubkey)
    && (p.expiresAt.Some? ==> env.now < p.expiresAt.value + 60)
    && env.clean && SelfSigned(signed)
  }

  /** The entry `e` of an alias may be replaced by `p`. */
  predicate MayReplace(alias: string, e: PaymentProfile, p: PaymentProfile) {
    && p.updatedAt >= e.updatedAt
    && (e.sequence.Some? ==> p.sequence.Some? && p.sequence.value > e.sequence.value)
    && if p.identityPubkey == e.identityPubkey then p.rotation.None?
       else
         && p.rotation.Some?
         && var r := p.rotation.value;
         && Rotation.Proven(r) && r.identifierHash == IdentifierHash(alias)
         && r.previousPubkey == e.identityPubkey && r.newPubkey == p.identityPubkey
         && p.sequence == Some(r.sequence)
         && r.sequence == if e.sequence.Some? then e.sequence.value + 1 else 1
  }

  /** A signed profile verifies exactly when it is self-signed under a key that is not x-only. */
  lemma SelfSignedExact(signed: SignedProfile)
    ensures VerifySigned(signed) == Ok(true) <==> SelfSigned(signed) && |signed.profile.identityPubkey| != 64
    ensures VerifySigned(signed) == Err(InvalidSignatureText) ==> !signed.signature.Signed?
    ensures VerifySigned(signed).Ok? ==> signed.signature.Signed?
  {
    hide Hex.Decode, Names;
    if signed.signature.Signed? {
      SignerExact(signed.profile.identityPubkey, signed.signature.signer);
    }
  }

  lemma CompressedLength(pubkeyHex: string)
    requires IsCompressedPubkey(pubkeyHex)
    ensures |pubkeyHex| == 66
  {
  }

  lemma TrimShort(s: string)
    ensures |TrimStart(s)| <= |s| && |Trim(s)| <= |s|
    ensures |Trim(s)| == |s| ==> Trim(s) == s
  {
    TrimStartShort(s);
  }

  lemma {:induction false} TrimStartShort(s: string)
    ensures |TrimStart(s)| <= |s| && (|TrimStart(s)| == |s| ==> TrimStart(s) == s)
  {
    if s != "" && IsSpace(s[0]) {
      TrimStartShort(s[1..]);
    }
  }

  lemma LowerAscii(c: char)
    ensures LowerChar(c) as int < 128 <==> c as int < 128
  {
  }

  lemma AsciiExact(s: string)
    ensures IsAscii(s) <==> forall c | c in Canonical(s) :: c as int < 128
  {
    hide LowerChar, Trim;
    var t := Trim(s);
    var u := Lower(t);
    if IsAscii(s) {
      forall c | c in u ensures c as int < 128 {
        var i :| 0 <= i < |u| && u[i] == c;
        assert t[i] in t;
        LowerAscii(t[i]);
      }
    } else {
      var c :| c in t && c as int >= 128;
      var i :| 0 <= i < |t| && t[i] == c;
      LowerAscii(t[i]);
      var d := u[i];
      assert d in Canonical(s) && d as int >= 128;
    }
  }

  /** A write is valid exactly when the profile may be written. */
  lemma WriteExact(requested: string, signed: SignedProfile, env: Env)
    ensures ValidateWrite(requested, signed, env).Ok? <==> Writable(requested, signed, env)
    ensures ValidateWrite(requested, signed, env) == Err(NonAscii)
        <==> exists c: char :: c as int >= 128 && (c in Canonical(requested) || c in Canonical(signed.profile.alias))
  {
    hide IsAscii, Canonical, IsCompressedPubkey, VerifySigned, SelfSigned;
    AsciiExact(requested);
    AsciiExact(signed.profile.alias);
    SelfSignedExact(signed);
    if IsCompressedPubkey(signed.profile.identityPubkey) {
      CompressedLength(signed.profile.identityPubkey);
    }
  }

  lemma ReplaceExact(alias: string, e: PaymentProfile, p: PaymentProfile)
    ensures CheckReplacement(alias, e, p).Ok? <==> MayReplace(alias, e, p)
  {
    hide IdentifierHash, Rotation.Verify, Rotation.Proven;
    if p.rotation.Some? {
      Rotation.ProvenExact(p.rotation.value);
      ProvenParts(p.rotation.value);
    }
  }

  lemma ProvenParts(r: Rotation.KeyRotation)
    ensures Rotation.Proven(r) ==> r.sequence > 0 && r.previousEventHash != ""
  {
  }

  /** An update is accepted exactly when the profile may be written and may replace the entry of
      its alias, if there is one. */
  lemma UpdateExact(profiles: Profiles, requested: string, signed: SignedProfile, env: Env)
    ensures CheckUpdate(profiles, requested, signed, env).Ok? <==>
            Writable(requested, signed, env)
            && (Find(profiles, signed.profile.alias).Some? ==>
                  MayReplace(signed.profile.alias, Find(profiles, signed.profile.alias).value.profile, signed.profile))
  {
    hide Find, ValidateWrite, Writable, CheckReplacement, MayReplace;
    WriteExact(requested, signed, env);
    if Writable(requested, signed, env) {
      WritableAlias(requested, signed, env);
      var existing := Find(profiles, signed.profile.alias);
      if existing.Some? {
        ReplaceExact(signed.profile.alias, existing.value.profile, signed.profile);
      }
    }
  }

  lemma WritableAlias(requested: string, signed: SignedProfile, env: Env)
    requires Writable(requested, signed, env)
    ensures Canonical(signed.profile.alias) == signed.profile.alias
  {
  }

  /** A registration is accepted exactly when the profile may be written and neither the hash of its
      alias nor the alias is a key. */
  lemma RegisterExact(profiles: Profiles, requested: string, signed: SignedProfile, env: Env)
    ensures CheckRegister(profiles, requested, signed, env).Ok? <==>
            Writable(requested, signed, env)
            && IdentifierHash(signed.profile.alias) !in profiles && signed.profile.alias !in profiles
  {
    hide ValidateWrite, Writable, IdentifierHash;
    WriteExact(requested, signed, env);
    if Writable(requested, signed, env) {
      WritableAlias(requested, signed, env);
    }
  }

  class Store {
    var profiles: Profiles

    constructor (loaded: Profiles)
      ensures profiles == loaded
    {
      profiles := loaded;
    }

    /** The entry is in memory even when saving the file fails. */
    method RegisterProfileFor(requested: string, signed: SignedProfile, env: Env) returns (r: Result<(), Error>)
      modifies this
      ensures var verdict := CheckRegister(old(profiles), requested, signed, env);
              if verdict.Err? then r == verdict && profiles == old(profiles)
              else profiles == Stored(old(profiles), signed) && r == if env.saves then Ok(()) else Err(SaveFailed)
      ensures r.Ok? || profiles != old(profiles) ==> Writable(requested, signed, env)
    {
      hide Writable, ValidateWrite, CheckKeyChange, CheckSequence;
      WriteExact(requested, signed, env);
      var valid := ValidateWrite(requested, signed, env);
      if valid.Err? {
        return valid;
      }
      var alias := Canonical(signed.profile.alias);
      var key := IdentifierHash(alias);
      if key in profiles || alias in profiles {
        return Err(AlreadyRegistered);
      }
      profiles := profiles[key := signed];
      return if env.saves then Ok(()) else Err(SaveFailed);
    }

    method UpdateProfileFor(requested: string, signed: SignedProfile, env: Env) returns (r: Result<(), Error>)
      modifies this
      ensures var verdict := CheckUpdate(old(profiles), requested, signed, env);
              if verdict.Err? then r == verdict && profiles == old(profiles)
              else profiles == Stored(old(profiles), signed) && r == if env.saves then Ok(()) else Err(SaveFailed)
      ensures r.Ok? || profiles != old(profiles) ==> Writable(requested, signed, env)
    {
      hide Writable, ValidateWrite, CheckKeyChange, CheckSequence;
      WriteExact(requested, signed, env);
      var valid := ValidateWrite(requested, signed, env);
      if valid.Err? {
        return valid;
      }
      var alias := Canonical(signed.profile.alias);
      var key := IdentifierHash(alias);
      var existing := if key in profiles then Some(profiles[key])
                      else if alias in profiles then Some(profiles[alias]) else None;
      if existing.Some? {
        var keys := CheckKeyChange(alias, existing.value.profile, signed.profile);
        if keys.Err? {
          return keys;
        }
        if signed.profile.updatedAt < existing.value.profile.updatedAt {
          return Err(Older);
        }
        var sequences := CheckSequence(existing.value.profile, signed.profile);
        if sequences.Err? {
          return sequences;
        }
      }
      profiles := profiles[key := signed];
      return if env.saves then Ok(()) else Err(SaveFailed);
    }

    method ResolveAlias(alias: string) returns (r: Result<SignedProfile, Error>)
      ensures var found := Find(profiles, Canonical(alias));
              r == if found.None? then Err(NotFound)
                   else if found.value.profile.revoked then Err(IsRevoked)
                   else Ok(found.value)
    {
      var canonical := Canonical(alias);
      var key := IdentifierHash(canonical);
      var found := if key in profiles then Some(profiles[key])
                   else if canonical in profiles then Some(profiles[canonical]) else None;
      if found.None? {
        return Err(NotFound);
      }
      if found.value.profile.revoked {
        return Err(IsRevoked);
      }
      return Ok(found.value);
    }
  }
}
