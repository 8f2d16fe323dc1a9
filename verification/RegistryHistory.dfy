/** What the registry's write rules keep over every history of register and update calls, and how
    they relate to the standalone rotation checks.
  */
module RegistryHistory {
  import opened Prelude
  import opened Crypto
  import opened Registry
  import Hex
  import Rotation
  import Text

  // ---------------------------------------------------------------------------------------
  // Identifiers
  // ---------------------------------------------------------------------------------------

  lemma {:induction false} TrimStartFixed(s: string)
    requires s == "" || !IsSpace(s[0])
    ensures TrimStart(s) == s
  {
  }

  lemma TrimEndFixed(s: string)
    requires s == "" || !IsSpace(s[|s| - 1])
    ensures TrimEnd(s) == s
  {
  }

  lemma LowerKeepsSpaces(c: char)
    ensures IsSpace(LowerChar(c)) <==> IsSpace(c)
    ensures LowerChar(LowerChar(c)) == LowerChar(c)
  {
  }

  lemma CanonicalIdempotent(s: string)
    ensures Canonical(Canonical(s)) == Canonical(s)
  {
    var t := Trim(s);
    var u := Lower(t);
    assert t != "" ==> t[0] == TrimStart(s)[0];
    if t != "" {
      LowerKeepsSpaces(t[0]);
      LowerKeepsSpaces(t[|t| - 1]);
    }
    hide IsSpace, LowerChar;
    TrimStartFixed(u);
    TrimEndFixed(u);
    forall i | 0 <= i < |u| ensures Lower(u)[i] == u[i] {
      LowerKeepsSpaces(t[i]);
    }
  }

  /** The canonical form is what is left after cutting off the white space at both ends, with the
      letters A to Z in lower case. */
  lemma CanonicalExact(s: string) returns (lo: nat, hi: nat)
    ensures lo <= hi <= |s| && |Canonical(s)| == hi - lo
    ensures forall i | 0 <= i < lo || hi <= i < |s| :: IsSpace(s[i])
    ensures lo < hi ==> !IsSpace(s[lo]) && !IsSpace(s[hi - 1])
    ensures forall i | lo <= i < hi ::
              Canonical(s)[i - lo] == if 'A' <= s[i] <= 'Z' then s[i] - 'A' + 'a' else s[i]
  {
    hide IsSpace, LowerChar, Trim, TrimStart, TrimEnd;
    lo, hi := TrimCut(s);
    var t := Trim(s);
    forall i | lo <= i < hi
      ensures Canonical(s)[i - lo] == if 'A' <= s[i] <= 'Z' then s[i] - 'A' + 'a' else s[i]
    {
      LowerCharExact(s[i]);
      assert t[i - lo] == s[i];
    }
  }

  lemma LowerCharExact(c: char)
    ensures LowerChar(c) == if 'A' <= c <= 'Z' then c - 'A' + 'a' else c
  {
  }

  lemma TrimCut(s: string) returns (lo: nat, hi: nat)
    ensures lo <= hi <= |s| && Trim(s) == s[lo..hi]
    ensures forall i | 0 <= i < lo || hi <= i < |s| :: IsSpace(s[i])
    ensures lo < hi ==> !IsSpace(s[lo]) && !IsSpace(s[hi - 1])
  {
    hide IsSpace;
    lo := TrimStartCut(s);
    var t := s[lo..];
    var n := TrimEndCut(t);
    hi := lo + n;
    assert t[..n] == s[lo..hi];
    assert forall i | hi <= i < |s| :: s[i] == t[i - lo];
    if n > 0 {
      assert t[0] == s[lo] && t[..n][0] == t[0] && t[..n][n - 1] == s[hi - 1];
    }
  }

  lemma {:induction false} TrimStartCut(s: string) returns (lo: nat)
    ensures lo <= |s| && TrimStart(s) == s[lo..] && forall i | 0 <= i < lo :: IsSpace(s[i])
  {
    hide IsSpace;
    if s != "" && IsSpace(s[0]) {
      var n := TrimStartCut(s[1..]);
      lo := n + 1;
      assert forall i | 1 <= i < lo :: s[i] == s[1..][i - 1];
    } else {
      lo := 0;
    }
  }

  lemma {:induction false} TrimEndCut(s: string) returns (hi: nat)
    ensures hi <= |s| && TrimEnd(s) == s[..hi] && forall i | hi <= i < |s| :: IsSpace(s[i])
  {
    hide IsSpace;
    if s != "" && IsSpace(s[|s| - 1]) {
      hi := TrimEndCut(s[..|s| - 1]);
    } else {
      hi := |s|;
    }
  }

  lemma CharBytesInjective(a: char, b: char)
    requires CharBytes(a) == CharBytes(b)
    ensures a == b
  {
    CharValue(a);
    CharValue(b);
  }

  lemma CharValue(c: char)
    ensures c as int == 65536 * CharBytes(c)[0] as int + 256 * CharBytes(c)[1] as int + CharBytes(c)[2] as int
  {
    var n := c as int;
    assert n < 0x110000;
    assert n / 256 / 256 == n / 65536;
  }

  lemma {:induction false} StringBytesInjective(a: string, b: string)
    requires StringBytes(a) == StringBytes(b)
    ensures a == b
  {
    hide CharBytes;
    StringBytesLength(a);
    StringBytesLength(b);
    if a != "" && b != "" {
      var s := StringBytes(a);
      assert s[..3] == CharBytes(a[0]) && s[..3] == CharBytes(b[0]);
      assert s[3..] == StringBytes(a[1..]) && s[3..] == StringBytes(b[1..]);
      CharBytesInjective(a[0], b[0]);
      StringBytesInjective(a[1..], b[1..]);
      assert a == [a[0]] + a[1..] && b == [b[0]] + b[1..];
    }
  }

  lemma {:induction false} StringBytesLength(s: string)
    ensures |StringBytes(s)| == 3 * |s|
  {
    if s != "" {
      StringBytesLength(s[1..]);
    }
  }

  lemma IdentifierHashInjective(a: string, b: string)
    requires IdentifierHash(a) == IdentifierHash(b)
    ensures Canonical(a) == Canonical(b)
  {
    var x, y := StringBytes(Canonical(a)), StringBytes(Canonical(b));
    Hex.DecodeEncode(x + [0]);
    Hex.DecodeEncode(y + [0]);
    assert (x + [0])[..|x|] == x && (y + [0])[..|y|] == y;
    StringBytesInjective(Canonical(a), Canonical(b));
  }

  lemma IdentifierHashText(a: string)
    ensures IdentifierHash(a) != "" && Text.OneLine(IdentifierHash(a))
  {
    Hex.DecodeEncode(StringBytes(Canonical(a)) + [0]);
    HexIsOneLine(IdentifierHash(a));
  }

  // ---------------------------------------------------------------------------------------
  // One step
  // ---------------------------------------------------------------------------------------

  datatype Call =
    | RegisterCall(requested: string, signed: SignedProfile, env: Env)
    | UpdateCall(requested: string, signed: SignedProfile, env: Env)

  function Step(profiles: Profiles, call: Call): Profiles {
    var verdict := match call
      case RegisterCall(requested, signed, env) => CheckRegister(profiles, requested, signed, env)
      case UpdateCall(requested, signed, env) => CheckUpdate(profiles, requested, signed, env);
    if verdict.Ok? then Stored(profiles, call.signed) else profiles
  }

  /** The alias whose entry the call writes. */
  function OwnerOf(call: Call): string {
    Canonical(call.signed.profile.alias)
  }

  ghost predicate ChangesKey(before: Option<SignedProfile>, after: Option<SignedProfile>) {
    before.Some? && after.Some? && before.value.profile.identityPubkey != after.value.profile.identityPubkey
  }

  /** The new key was authorized by the holder of the old key and accepted by its own holder, for
      this alias, at exactly the next sequence. */
  ghost predicate DulySigned(alias: string, e: PaymentProfile, p: PaymentProfile) {
    && p.rotation.Some?
    && var r := p.rotation.value;
    && r.identifierHash == IdentifierHash(alias)
    && r.previousPubkey == e.identityPubkey && r.newPubkey == p.identityPubkey
    && r.sequence == SequenceOf(p) == SequenceOf(e) + 1
    && SignerOf(e.identityPubkey).Some? && SignerOf(p.identityPubkey).Some?
    && r.authorizationSignature
       == Signed(SignerOf(e.identityPubkey).value, Rotation.MessageOf(Rotation.AUTHORIZATION_DOMAIN, r))
    && r.acceptanceSignature
       == Signed(SignerOf(p.identityPubkey).value, Rotation.MessageOf(Rotation.ACCEPTANCE_DOMAIN, r))
  }

  /** How an entry may be replaced. */
  ghost predicate Replaces(alias: string, e: PaymentProfile, p: PaymentProfile) {
    && p.updatedAt >= e.updatedAt
    && (e.sequence.Some? ==> p.sequence.Some? && p.sequence.value > e.sequence.value)
    && (p.identityPubkey != e.identityPubkey ==> DulySigned(alias, e, p))
  }

  /** `owner`'s entry is stored where a lookup of `alias` may find it: the two are equal, or the
      alias is spelled like the owner's hash. */
  predicate Shares(alias: string, owner: string) {
    owner == alias || IdentifierHash(owner) == alias
  }

  ghost predicate Evolves(alias: string, owner: string, before: Option<SignedProfile>, after: Option<SignedProfile>) {
    before.Some? ==>
      && after.Some?
      && (after == before || (Shares(alias, owner) && Replaces(owner, before.value.profile, after.value.profile)))
  }

  lemma AcceptedReplaces(alias: string, e: PaymentProfile, p: PaymentProfile)
    requires CheckReplacement(alias, e, p).Ok?
    ensures Replaces(alias, e, p)
    ensures p.identityPubkey != e.identityPubkey ==> p.rotation.Some? && Rotation.Verify(p.rotation.value) == Ok(true)
  {
    if p.identityPubkey != e.identityPubkey {
      Rotation.VerifyExact(p.rotation.value);
    }
    hide Rotation.Verify, Rotation.MessageOf, SignerOf, IdentifierHash;
  }

  /** Storing an entry changes what its own alias finds, and what an alias spelled like its hash
      finds unless this alias has an entry of its own. */
  lemma StoredElsewhere(profiles: Profiles, signed: SignedProfile, alias: string)
    requires Canonical(alias) == alias
    ensures var owner := Canonical(signed.profile.alias);
            var before, after := Find(profiles, alias), Find(Stored(profiles, signed), alias);
            if owner == alias then after == Some(signed)
            else if IdentifierHash(owner) == alias && IdentifierHash(alias) !in profiles then
              after == Some(signed) && (before.Some? ==> before == Find(profiles, owner))
            else after == before
  {
    var owner := Canonical(signed.profile.alias);
    CanonicalIdempotent(signed.profile.alias);
    if IdentifierHash(owner) == IdentifierHash(alias) {
      IdentifierHashInjective(owner, alias);
    }
    hide Canonical, IdentifierHash;
  }

  /** Replacing the owner's entry. */
  lemma OwnerReplaces(profiles: Profiles, call: Call)
    requires Step(profiles, call) != profiles
    ensures Step(profiles, call) == Stored(profiles, call.signed)
    ensures var before := Find(profiles, OwnerOf(call));
            before.Some? ==>
              && Replaces(OwnerOf(call), before.value.profile, call.signed.profile)
              && (before.value.profile.identityPubkey != call.signed.profile.identityPubkey ==>
                    call.signed.profile.rotation.Some?
                    && Rotation.Verify(call.signed.profile.rotation.value) == Ok(true))
  {
    hide Find, Stored, Canonical, ValidateWrite, Replaces, CheckReplacement, Rotation.Verify;
    var before := Find(profiles, OwnerOf(call));
    if before.Some? {
      AcceptedReplaces(OwnerOf(call), before.value.profile, call.signed.profile);
    }
  }

  /** What may be registered or updated now is stored, and then found under its alias; anything else
      changes nothing. */
  lemma StepExact(profiles: Profiles, call: Call)
    ensures var alias := call.signed.profile.alias;
            var before := Find(profiles, alias);
            var accepted := Writable(call.requested, call.signed, call.env)
                            && if call.RegisterCall? then before.None?
                               else before.Some? ==> MayReplace(alias, before.value.profile, call.signed.profile);
            && (accepted ==> Find(Step(profiles, call), alias) == Some(call.signed))
            && (!accepted ==> Step(profiles, call) == profiles)
  {
    hide Find, Stored, Canonical, IdentifierHash, Writable, MayReplace, CheckRegister, CheckUpdate;
    RegisterExact(profiles, call.requested, call.signed, call.env);
    UpdateExact(profiles, call.requested, call.signed, call.env);
    FindsNone(profiles, call.signed.profile.alias);
    if Writable(call.requested, call.signed, call.env) {
      WritableAlias(call.requested, call.signed, call.env);
      StoredElsewhere(profiles, call.signed, call.signed.profile.alias);
    }
  }

  lemma FindsNone(profiles: Profiles, alias: string)
    ensures Find(profiles, alias).None? <==> IdentifierHash(alias) !in profiles && alias !in profiles
  {
    hide IdentifierHash;
  }

  /** Every call, accepted or not, moves every alias only as `Evolves` allows. */
  lemma StepEvolves(profiles: Profiles, call: Call, alias: string)
    requires Canonical(alias) == alias
    ensures Evolves(alias, OwnerOf(call), Find(profiles, alias), Find(Step(profiles, call), alias))
  {
    hide Find, Stored, Canonical, IdentifierHash, Replaces, Step;
    if Step(profiles, call) != profiles {
      OwnerReplaces(profiles, call);
      StoredElsewhere(profiles, call.signed, alias);
    }
  }

  lemma LowerHexFixed(text: string)
    requires Hex.IsLowerHex(text)
    ensures Canonical(text) == text
  {
    forall i | 0 <= i < |text| ensures !IsSpace(text[i]) && LowerChar(text[i]) == text[i] {
      assert Hex.IsLowerDigit(text[i]);
    }
    hide IsSpace, LowerChar;
    TrimStartFixed(text);
    TrimEndFixed(text);
    assert Lower(text) == text;
  }

  /** An alias spelled like another alias's hash finds the entry stored for that alias, exactly
      when no other entry of its own is stored. */
  lemma HashAliasFinds(profiles: Profiles, signed: SignedProfile)
    ensures var after := Stored(profiles, signed);
            var alias := IdentifierHash(Canonical(signed.profile.alias));
            && Canonical(alias) == alias
            && (Find(after, alias) == Some(signed)
                <==> (IdentifierHash(alias) in after ==> after[IdentifierHash(alias)] == signed))
  {
    Hex.DecodeEncode(StringBytes(Canonical(Canonical(signed.profile.alias))) + [0]);
    LowerHexFixed(IdentifierHash(Canonical(signed.profile.alias)));
    hide IdentifierHash, Canonical;
  }

  // ---------------------------------------------------------------------------------------
  // Histories
  // ---------------------------------------------------------------------------------------

  function After(profiles: Profiles, calls: seq<Call>, n: nat): Profiles
    requires n <= |calls|
  {
    if n == 0 then profiles else Step(After(profiles, calls, n - 1), calls[n - 1])
  }

  function Current(profiles: Profiles, calls: seq<Call>, n: nat, alias: string): Option<SignedProfile>
    requires n <= |calls|
  {
    Find(After(profiles, calls, n), alias)
  }

  /** How often the alias changed hands in calls `lo` to `hi`. */
  ghost function KeyChanges(profiles: Profiles, calls: seq<Call>, alias: string, lo: nat, hi: nat): nat
    requires lo <= hi <= |calls|
    decreases hi
  {
    if lo == hi then 0
    else
      var earlier := KeyChanges(profiles, calls, alias, lo, hi - 1);
      if ChangesKey(Current(profiles, calls, hi - 1, alias), Current(profiles, calls, hi, alias)) then earlier + 1
      else earlier
  }

  ghost predicate Grown(e: PaymentProfile, p: PaymentProfile, changes: nat) {
    && p.updatedAt >= e.updatedAt
    && (e.sequence.Some? ==> p.sequence.Some?)
    && SequenceOf(p) >= SequenceOf(e) + changes
  }

  lemma EvolvesGrows(alias: string, owner: string, e: SignedProfile, s: SignedProfile)
    requires Evolves(alias, owner, Some(e), Some(s))
    ensures Grown(e.profile, s.profile, if ChangesKey(Some(e), Some(s)) then 1 else 0)
  {
  }

  /** Over any history from any loaded registry: once an alias has an entry it keeps one, its
      timestamp never goes back, a sequence number is never dropped, and the number of key changes
      is at most the growth of the sequence number. */
  lemma {:induction false} HistoryGrows(profiles: Profiles, calls: seq<Call>, alias: string, lo: nat, hi: nat)
    requires lo <= hi <= |calls| && Canonical(alias) == alias
    requires Current(profiles, calls, lo, alias).Some?
    ensures Current(profiles, calls, hi, alias).Some?
    ensures Grown(Current(profiles, calls, lo, alias).value.profile, Current(profiles, calls, hi, alias).value.profile,
                  KeyChanges(profiles, calls, alias, lo, hi))
    decreases hi
  {
    hide Canonical, Find, Step;
    if lo < hi {
      HistoryGrows(profiles, calls, alias, lo, hi - 1);
      StepEvolves(After(profiles, calls, hi - 1), calls[hi - 1], alias);
      EvolvesGrows(alias, OwnerOf(calls[hi - 1]), Current(profiles, calls, hi - 1, alias).value,
                   Current(profiles, calls, hi, alias).value);
    }
  }

  /** From any loaded registry, an alias never changes hands more often than its sequence number
      counts. */
  lemma {:induction false} KeyChangesBounded(profiles: Profiles, calls: seq<Call>, alias: string, n: nat)
    requires n <= |calls| && Canonical(alias) == alias
    ensures Current(profiles, calls, n, alias).None? ==> KeyChanges(profiles, calls, alias, 0, n) == 0
    ensures Current(profiles, calls, n, alias).Some?
        ==> KeyChanges(profiles, calls, alias, 0, n) <= SequenceOf(Current(profiles, calls, n, alias).value.profile)
  {
    hide Canonical, Find, Step;
    if n > 0 {
      KeyChangesBounded(profiles, calls, alias, n - 1);
      StepEvolves(After(profiles, calls, n - 1), calls[n - 1], alias);
      if Current(profiles, calls, n - 1, alias).Some? {
        EvolvesGrows(alias, OwnerOf(calls[n - 1]), Current(profiles, calls, n - 1, alias).value,
                     Current(profiles, calls, n, alias).value);
      }
    }
  }

  /** The rotation that call `k` used to move `alias` to a new key. */
  ghost predicate MovesKey(profiles: Profiles, calls: seq<Call>, k: nat, alias: string)
    requires k < |calls|
  {
    ChangesKey(Current(profiles, calls, k, alias), Current(profiles, calls, k + 1, alias))
  }

  lemma StepMoves(profiles: Profiles, call: Call, alias: string)
    requires Canonical(alias) == alias && ChangesKey(Find(profiles, alias), Find(Step(profiles, call), alias))
    ensures Shares(alias, OwnerOf(call)) && Canonical(OwnerOf(call)) == OwnerOf(call)
    ensures Find(profiles, OwnerOf(call)) == Find(profiles, alias)
    ensures Find(Step(profiles, call), OwnerOf(call)) == Find(Step(profiles, call), alias) == Some(call.signed)
  {
    CanonicalIdempotent(call.signed.profile.alias);
    hide Find, Stored, Canonical, IdentifierHash, Replaces, Step, Rotation.Verify;
    OwnerReplaces(profiles, call);
    StoredElsewhere(profiles, call.signed, alias);
    StoredElsewhere(profiles, call.signed, OwnerOf(call));
  }

  /** A key change of any alias is a key change of the alias that was written, with the same
      entries before and after. */
  lemma OwnerMoves(profiles: Profiles, calls: seq<Call>, k: nat, alias: string)
    requires k < |calls| && Canonical(alias) == alias && MovesKey(profiles, calls, k, alias)
    ensures var owner := OwnerOf(calls[k]);
            && Shares(alias, owner) && Canonical(owner) == owner
            && Current(profiles, calls, k, owner) == Current(profiles, calls, k, alias)
            && Current(profiles, calls, k + 1, owner) == Current(profiles, calls, k + 1, alias)
            && MovesKey(profiles, calls, k, owner)
  {
    StepMoves(After(profiles, calls, k), calls[k], alias);
    hide Canonical, Find, Step, OwnerOf;
  }

  /** Every key change is signed by both keys for the alias that was written: the one looked up, or
      one whose hash that is. */
  lemma MoveIsDulySigned(profiles: Profiles, calls: seq<Call>, k: nat, alias: string)
    requires k < |calls| && Canonical(alias) == alias && MovesKey(profiles, calls, k, alias)
    ensures Shares(alias, OwnerOf(calls[k]))
    ensures DulySigned(OwnerOf(calls[k]), Current(profiles, calls, k, alias).value.profile,
                       Current(profiles, calls, k + 1, alias).value.profile)
  {
    StepEvolves(After(profiles, calls, k), calls[k], alias);
    hide Canonical, Find, Step, DulySigned, OwnerOf, IdentifierHash;
  }

  lemma MoveRotation(profiles: Profiles, calls: seq<Call>, k: nat, alias: string) returns (r: Rotation.KeyRotation)
    requires k < |calls| && Canonical(alias) == alias && MovesKey(profiles, calls, k, alias)
    ensures Current(profiles, calls, k, alias).Some? && Current(profiles, calls, k + 1, alias).Some?
    ensures Current(profiles, calls, k + 1, alias).value.profile.rotation == Some(r)
    ensures Rotation.Verify(r) == Ok(true) && r.identifierHash == IdentifierHash(OwnerOf(calls[k]))
    ensures r.sequence == SequenceOf(Current(profiles, calls, k + 1, alias).value.profile)
    ensures r.sequence == SequenceOf(Current(profiles, calls, k, alias).value.profile) + 1
  {
    MoveIsDulySigned(profiles, calls, k, alias);
    StepMoves(After(profiles, calls, k), calls[k], alias);
    assert After(profiles, calls, k + 1) == Step(After(profiles, calls, k), calls[k]);
    hide Canonical, Find, Step, Rotation.Verify, IdentifierHash, OwnerOf;
    OwnerReplaces(After(profiles, calls, k), calls[k]);
    r := Current(profiles, calls, k + 1, alias).value.profile.rotation.value;
  }

  lemma SequenceKept(profiles: Profiles, calls: seq<Call>, alias: string, lo: nat, hi: nat)
    requires lo <= hi <= |calls| && Canonical(alias) == alias
    requires Current(profiles, calls, lo, alias).Some?
    ensures Current(profiles, calls, hi, alias).Some?
    ensures SequenceOf(Current(profiles, calls, hi, alias).value.profile)
         >= SequenceOf(Current(profiles, calls, lo, alias).value.profile)
  {
    hide Canonical, Find, After, Current;
    HistoryGrows(profiles, calls, alias, lo, hi);
  }

  /** No authorization signature ever drives two key changes, of one alias or of two. */
  lemma ProofNotReusable(profiles: Profiles, calls: seq<Call>, i: nat, j: nat, a: string, b: string)
    requires i < j < |calls| && Canonical(a) == a && Canonical(b) == b
    requires MovesKey(profiles, calls, i, a) && MovesKey(profiles, calls, j, b)
    ensures var p := Current(profiles, calls, i + 1, a).value.profile;
            var q := Current(profiles, calls, j + 1, b).value.profile;
            && p.rotation.Some? && q.rotation.Some?
            && p.rotation.value.authorizationSignature != q.rotation.value.authorizationSignature
  {
    hide *;
    var c, d := OwnerOf(calls[i]), OwnerOf(calls[j]);
    OwnerMoves(profiles, calls, i, a);
    OwnerMoves(profiles, calls, j, b);
    var r := MoveRotation(profiles, calls, i, c);
    var s := MoveRotation(profiles, calls, j, d);
    SequenceKept(profiles, calls, c, i + 1, j);
    if r.authorizationSignature == s.authorizationSignature {
      IdentifierHashText(c);
      IdentifierHashText(d);
      Rotation.AuthorizationDeterminesRotation(r, s);
      IdentifierHashInjective(c, d);
    }
  }

  /** The entry was written by this call: signed by its own key, under this alias or one whose hash
      this is. */
  ghost predicate WrittenBy(call: Call, alias: string, entry: Option<SignedProfile>) {
    && entry == Some(call.signed) && Writable(call.requested, call.signed, call.env)
    && Shares(alias, call.signed.profile.alias)
  }

  lemma StepWrites(profiles: Profiles, call: Call)
    requires Step(profiles, call) != profiles
    ensures Writable(call.requested, call.signed, call.env) && OwnerOf(call) == call.signed.profile.alias
    ensures Step(profiles, call) == Stored(profiles, call.signed)
  {
    hide Find, Stored, Canonical, ValidateWrite, Writable, CheckReplacement;
    WriteExact(call.requested, call.signed, call.env);
    if Writable(call.requested, call.signed, call.env) {
      WritableAlias(call.requested, call.signed, call.env);
    }
  }

  /** Whatever entry is found after a history was either found before it or written in it: then its
      own key signed exactly this profile, and the profile could be written at that time. */
  lemma {:induction false} EntriesAreSigned(profiles: Profiles, calls: seq<Call>, n: nat, alias: string)
    requires n <= |calls| && Canonical(alias) == alias
    ensures var now := Current(profiles, calls, n, alias);
            now == Find(profiles, alias) || exists k | 0 <= k < n :: WrittenBy(calls[k], alias, now)
  {
    hide Canonical, Find, Step, Stored, Writable, IdentifierHash;
    if n > 0 {
      EntriesAreSigned(profiles, calls, n - 1, alias);
      var before, call := After(profiles, calls, n - 1), calls[n - 1];
      if Step(before, call) != before {
        StepWrites(before, call);
        StoredElsewhere(before, call.signed, alias);
        if Find(Step(before, call), alias) != Find(before, alias) {
          assert WrittenBy(calls[n - 1], alias, Current(profiles, calls, n, alias));
        }
      }
    }
  }

  // ---------------------------------------------------------------------------------------
  // The standalone rotation checks
  // ---------------------------------------------------------------------------------------

  function VerifyKeyRotation(oldProfile: SignedProfile, newProfile: SignedProfile): Result<bool, CryptoError> {
    var (e, p) := (oldProfile.profile, newProfile.profile);
    if p.rotation.None? then Ok(false)
    else
      var r := p.rotation.value;
      if r.previousPubkey != e.identityPubkey || r.newPubkey != p.identityPubkey then Ok(false)
      else if r.identifierHash != IdentifierHash(e.alias) || p.alias != e.alias
              || r.sequence != SequenceOf(p) || r.sequence != NextSequence(e)
      then Ok(false)
      else match Rotation.Verify(r)
        case Err(c) => Err(c)
        case Ok(false) => Ok(false)
        case Ok(true) => VerifySigned(newProfile)
  }

  /** The standalone check accepts exactly a proven change between the two keys, for the old
      profile's alias and the next sequence, or the largest again, in a profile that its new key,
      not x-only, signed. */
  lemma KeyRotationExact(oldProfile: SignedProfile, newProfile: SignedProfile)
    ensures VerifyKeyRotation(oldProfile, newProfile) == Ok(true) <==>
            var (e, p) := (oldProfile.profile, newProfile.profile);
            && p.alias == e.alias && SelfSigned(newProfile) && |p.identityPubkey| != 64 && p.rotation.Some?
            && var r := p.rotation.value;
            && Rotation.Proven(r) && r.identifierHash == IdentifierHash(e.alias)
            && r.previousPubkey == e.identityPubkey && r.newPubkey == p.identityPubkey
            && p.sequence == Some(r.sequence)
            && r.sequence == if e.sequence.None? then 1
                             else if e.sequence.value == U64_MAX then U64_MAX else e.sequence.value + 1
  {
    hide IdentifierHash, Rotation.Verify, Rotation.Proven, VerifySigned, SelfSigned;
    SelfSignedExact(newProfile);
    if newProfile.profile.rotation.Some? {
      Rotation.ProvenExact(newProfile.profile.rotation.value);
      ProvenParts(newProfile.profile.rotation.value);
    }
  }

  datatype RotateError = NotCurrentKey | NotNextSequence

  /** The rotated profile, not yet signed by the new key. */
  function RotateIdentityKey(signed: SignedProfile, oldSecret: SecretKey, newSecret: SecretKey,
                             previousEventHash: string, sequence: U64, now: int): Result<SignedProfile, RotateError>
  {
    var p := signed.profile;
    if PublicHex(oldSecret) != p.identityPubkey then Err(NotCurrentKey)
    else if sequence != NextSequence(p) then Err(NotNextSequence)
    else
      var rotation := Rotation.Create(IdentifierHash(p.alias), p.identityPubkey, oldSecret, PublicHex(newSecret),
                                      newSecret,
                                      previousEventHash, sequence, now);
      Ok(SignedProfile(p.(identityPubkey := PublicHex(newSecret), rotation := Some(rotation),
                          sequence := Some(sequence)), Empty, None))
  }

  function SignProfile(profile: PaymentProfile, secret: SecretKey): SignedProfile {
    SignedProfile(profile, Sign(profile, secret), None)
  }

  lemma VerifiedParts(r: Rotation.KeyRotation)
    ensures Rotation.Verify(r) == Ok(true) ==> r.sequence > 0 && r.previousEventHash != ""
  {
  }

  /** For a stored profile and a real key change, the registry accepts an update exactly when the
      standalone check does, the write itself is valid, the timestamp is not older - and the
      stored sequence can still grow. */
  lemma RotationChecksAgree(profiles: Profiles, requested: string, signed: SignedProfile, env: Env,
          existing: SignedProfile)
    requires Find(profiles, Canonical(signed.profile.alias)) == Some(existing)
    requires existing.profile.alias == Canonical(signed.profile.alias)
    requires signed.profile.identityPubkey != existing.profile.identityPubkey
    ensures CheckUpdate(profiles, requested, signed, env).Ok?
        <==> && ValidateWrite(requested, signed, env).Ok?
             && VerifyKeyRotation(existing, signed) == Ok(true)
             && signed.profile.updatedAt >= existing.profile.updatedAt
             && SequenceOf(existing.profile) < U64_MAX
  {
    hide Find, Canonical, IdentifierHash, Rotation.Verify, Rotation.MessageOf, SignerOf, IsAscii, VerifySigned;
    if signed.profile.rotation.Some? {
      VerifiedParts(signed.profile.rotation.value);
    }
  }

  /** At the largest sequence the standalone check accepts a rotation that the registry refuses. */
  lemma ChecksDisagreeAtMaximum(oldSecret: SecretKey, newSecret: SecretKey, alias: string, now: int)
    ensures var p := PaymentProfile(alias, PublicHex(oldSecret), 0, 0, None, Some(U64_MAX), None, None, false, false);
            var e := SignedProfile(p, Empty, None);
            var rotated := RotateIdentityKey(e, oldSecret, newSecret, "h", U64_MAX, now);
            && rotated.Ok?
            && var s := SignProfile(rotated.value.profile, newSecret);
            && VerifyKeyRotation(e, s) == Ok(true)
            && forall requested, env :: CheckUpdate(map[IdentifierHash(alias) := e], requested, s, env).Err?
  {
    PublicHexDecodes(oldSecret);
    PublicHexDecodes(newSecret);
    IdentifierHashText(alias);
    hide PublicHex, Rotation.RotationMessage, IdentifierHash;
  }

  /** The profile that a rotation of `p` leads to. */
  function AfterRotation(p: PaymentProfile, oldSecret: SecretKey, newSecret: SecretKey, previousEventHash: string,
          sequence: U64, rotatedAt: int): PaymentProfile {
    p.(identityPubkey := PublicHex(newSecret), sequence := Some(sequence),
       rotation := Some(Rotation.Create(IdentifierHash(p.alias), p.identityPubkey, oldSecret, PublicHex(newSecret),
                                        newSecret,
                                        previousEventHash, sequence, rotatedAt)))
  }

  lemma RotatedProfile(existing: SignedProfile, oldSecret: SecretKey, newSecret: SecretKey, previousEventHash: string,
          sequence: U64, rotatedAt: int)
    requires RotateIdentityKey(existing, oldSecret, newSecret, previousEventHash, sequence, rotatedAt).Ok?
    ensures var rotated := RotateIdentityKey(existing, oldSecret, newSecret, previousEventHash, sequence,
                                             rotatedAt).value.profile;
            rotated == AfterRotation(existing.profile, oldSecret, newSecret, previousEventHash, sequence, rotatedAt)
            && rotated.alias == existing.profile.alias && rotated.identityPubkey == PublicHex(newSecret)
            && rotated.expiresAt == existing.profile.expiresAt && rotated.pqcRequired == existing.profile.pqcRequired
            && SignProfile(rotated, newSecret).profile == rotated
    ensures existing.profile.identityPubkey == PublicHex(oldSecret) && sequence == NextSequence(existing.profile)
    ensures var rotated := RotateIdentityKey(existing, oldSecret, newSecret, previousEventHash, sequence,
                                             rotatedAt).value.profile;
            forall now :: Lapsed(rotated, now) <==> Lapsed(existing.profile, now)
  {
    hide PublicHex, IdentifierHash, Rotation.Create;
  }

  lemma RotatedIsWritable(p: PaymentProfile, secret: SecretKey, env: Env)
    requires Canonical(p.alias) == p.alias && IsAscii(p.alias) && p.identityPubkey == PublicHex(secret)
    ensures ValidateWrite(p.alias, SignProfile(p, secret), env).Ok?
            <==> !p.pqcRequired && !Lapsed(p, env.now) && env.clean
  {
    hide PublicHex, Canonical, IsAscii, Lapsed;
    PublicHexDecodes(secret);
  }

  lemma RotatedReplaces(p: PaymentProfile, oldSecret: SecretKey, newSecret: SecretKey, previousEventHash: string,
          sequence: U64, rotatedAt: int)
    requires p.identityPubkey == PublicHex(oldSecret) && sequence == NextSequence(p)
    ensures CheckReplacement(p.alias, p,
                             AfterRotation(p, oldSecret, newSecret, previousEventHash, sequence, rotatedAt)).Ok?
            <==> PublicHex(newSecret) != PublicHex(oldSecret) && previousEventHash != "" && SequenceOf(p) < U64_MAX
  {
    hide PublicHex, IdentifierHash, Rotation.Create, Rotation.Verify;
    CreatedVerifies(IdentifierHash(p.alias), oldSecret, newSecret, previousEventHash, sequence, rotatedAt);
    IdentifierHashText(p.alias);
  }

  /** A rotation made with the two secret keys verifies, unless a field it needs is missing. */
  lemma CreatedVerifies(identifier: string, oldSecret: SecretKey, newSecret: SecretKey, previousEventHash: string,
          sequence: nat, rotatedAt: int)
    ensures var r := Rotation.Create(identifier, PublicHex(oldSecret), oldSecret, PublicHex(newSecret), newSecret,
                                     previousEventHash, sequence, rotatedAt);
            && r.identifierHash == identifier
            && r.previousPubkey == PublicHex(oldSecret) && r.newPubkey == PublicHex(newSecret)
            && r.previousEventHash == previousEventHash && r.sequence == sequence
            && (Rotation.Verify(r) == Ok(true) <==> identifier != "" && previousEventHash != "" && sequence > 0)
            && Rotation.Verify(r).Ok?
  {
    hide PublicHex, Rotation.RotationMessage;
    PublicHexDecodes(oldSecret);
    PublicHexDecodes(newSecret);
  }

  lemma UpdateOfStored(profiles: Profiles, requested: string, signed: SignedProfile, env: Env, existing: SignedProfile)
    requires Canonical(signed.profile.alias) == signed.profile.alias
             && Find(profiles, signed.profile.alias) == Some(existing)
    ensures CheckUpdate(profiles, requested, signed, env).Ok?
            <==> ValidateWrite(requested, signed, env).Ok?
                 && CheckReplacement(signed.profile.alias, existing.profile, signed.profile).Ok?
  {
    hide Canonical, Find, ValidateWrite, CheckReplacement;
  }

  /** Rotating the key of a stored profile and signing the result with the new key gives an update
      that the registry accepts, exactly under the conditions named here. */
  lemma RotatedIsAccepted(profiles: Profiles, existing: SignedProfile, oldSecret: SecretKey, newSecret: SecretKey,
                          previousEventHash: string, sequence: U64, rotatedAt: int, env: Env)
    requires Find(profiles, existing.profile.alias) == Some(existing)
    requires Canonical(existing.profile.alias) == existing.profile.alias && IsAscii(existing.profile.alias)
    requires RotateIdentityKey(existing, oldSecret, newSecret, previousEventHash, sequence, rotatedAt).Ok?
    ensures var rotated := RotateIdentityKey(existing, oldSecret, newSecret, previousEventHash, sequence,
                                             rotatedAt).value.profile;
            CheckUpdate(profiles, existing.profile.alias, SignProfile(rotated, newSecret), env).Ok?
            <==> && PublicHex(newSecret) != PublicHex(oldSecret)
                 && previousEventHash != ""
                 && SequenceOf(existing.profile) < U64_MAX
                 && !existing.profile.pqcRequired
                 && !Lapsed(existing.profile, env.now)
                 && env.clean
  {
    hide *;
    var rotated := RotateIdentityKey(existing, oldSecret, newSecret, previousEventHash, sequence,
                                     rotatedAt).value.profile;
    RotatedProfile(existing, oldSecret, newSecret, previousEventHash, sequence, rotatedAt);
    RotatedIsWritable(rotated, newSecret, env);
    RotatedReplaces(existing.profile, oldSecret, newSecret, previousEventHash, sequence, rotatedAt);
    UpdateOfStored(profiles, existing.profile.alias, SignProfile(rotated, newSecret), env, existing);
  }
}
