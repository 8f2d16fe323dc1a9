/** One checkpoint witness: the pin it keeps for every log, the checks before it cosigns, and the
    K-of-N policy that counts cosignatures.
  */
module Witness {
  import opened Prelude
  import opened Merkle
  import opened Crypto
  import Text

  // ---------------------------------------------------------------------------------------
  // Checkpoints and cosignatures
  // ---------------------------------------------------------------------------------------

  /** What a checkpoint hash commits to: everything but the operator signature and the Bitcoin
      receipt. `rest` stands for the fields that witnesses do not read. */
  datatype CheckpointCore = CheckpointCore(
    version: nat,
    logId: string,
    logSize: nat,
    logRoot: HashText,
    mapRoot: Option<HashText>,
    createdAt: int,
    operatorPubkey: string,
    rest: nat)

  datatype CheckpointMessage = CheckpointMessage(core: CheckpointCore, anchor: Option<nat>)

  datatype Checkpoint = Checkpoint(
    core: CheckpointCore,
    anchor: Option<nat>,
    operatorSignature: Signature<CheckpointMessage>)

  /** A checkpoint hash on the wire: a real one, or 64 digits that somebody made up. */
  datatype CheckpointHash = HashOf(core: CheckpointCore) | MadeUp(text: string)

  datatype CosignMessage = CosignMessage(witnessId: string, checkpointHash: CheckpointHash, treeSize: nat,
          timestamp: int)

  datatype Cosignature = Cosignature(
    witnessId: string,
    witnessPubkey: string,
    checkpointHash: CheckpointHash,
    treeSize: nat,
    timestamp: int,
    signature: Signature<CosignMessage>)

  function SigningMessage(c: Cosignature): CosignMessage {
    CosignMessage(c.witnessId, c.checkpointHash, c.treeSize, c.timestamp)
  }

  function CosignText(witnessId: string, checkpointHash: string, treeSize: nat, timestamp: int): string {
    (((("SatsPathWitnessV1" + "\n" + "witness_id=") + witnessId)
      + "\n" + ("checkpoint_hash=" + checkpointHash))
      + "\n" + ("tree_size=" + Text.Decimal(treeSize)))
      + "\n" + ("timestamp=" + Text.Decimal(timestamp))
  }

  /** The signed text determines its four fields for every witness name, with newlines or not, so
      a message may be treated as the record of its fields. */
  lemma CosignTextInjective(id1: string, hash1: string, size1: nat, time1: int, id2: string, hash2: string,
          size2: nat, time2: int)
    requires Text.OneLine(hash1) && Text.OneLine(hash2)
    requires CosignText(id1, hash1, size1, time1) == CosignText(id2, hash2, size2, time2)
    ensures id1 == id2 && hash1 == hash2 && size1 == size2 && time1 == time2
  {
    Text.DecimalOneLine(size1); Text.DecimalOneLine(size2); Text.DecimalOneLine(time1); Text.DecimalOneLine(time2);
    var head := "SatsPathWitnessV1" + "\n" + "witness_id=";
    var a1, a2 := head + id1, head + id2;
    var b1, b2 := a1 + "\n" + ("checkpoint_hash=" + hash1), a2 + "\n" + ("checkpoint_hash=" + hash2);
    var c1, c2 := b1 + "\n" + ("tree_size=" + Text.Decimal(size1)), b2 + "\n" + ("tree_size=" + Text.Decimal(size2));
    hide Text.Decimal;
    Text.LastLine(c1, "timestamp=" + Text.Decimal(time1), c2, "timestamp=" + Text.Decimal(time2));
    Text.LastLine(b1, "tree_size=" + Text.Decimal(size1), b2, "tree_size=" + Text.Decimal(size2));
    Text.LastLine(a1, "checkpoint_hash=" + hash1, a2, "checkpoint_hash=" + hash2);
    SamePrefix("timestamp=", Text.Decimal(time1), Text.Decimal(time2));
    SamePrefix("tree_size=", Text.Decimal(size1), Text.Decimal(size2));
    SamePrefix("checkpoint_hash=", hash1, hash2);
    SamePrefix(head, id1, id2);
    Text.DecimalInjective(time1, time2);
    Text.DecimalInjective(size1, size2);
  }

  lemma SamePrefix(p: string, a: string, b: string)
    requires p + a == p + b
    ensures a == b
  {
    assert (p + a)[|p|..] == a && (p + b)[|p|..] == b;
  }

  function VerifyCheckpoint(cp: Checkpoint): Result<bool, CryptoError> {
    if cp.core.version != 1 || cp.core.logId == "" || cp.core.logSize == 0 || cp.core.logRoot.NotAHash?
       || |cp.core.operatorPubkey| != 66
    then Ok(false)
    else if cp.core.mapRoot.Some? && cp.core.mapRoot.value.NotAHash? then Ok(false)
    else VerifyMessage(CheckpointMessage(cp.core, cp.anchor), cp.operatorSignature, cp.core.operatorPubkey)
  }

  predicate FieldsFit(core: CheckpointCore) {
    && core.version == 1 && core.logId != "" && core.logSize > 0 && !core.logRoot.NotAHash?
    && (core.mapRoot.Some? ==> !core.mapRoot.value.NotAHash?)
  }

  /** The fields fit, and the key that the checkpoint names signed exactly these fields and this
      receipt. */
  predicate Genuine(cp: Checkpoint) {
    && FieldsFit(cp.core) && |cp.core.operatorPubkey| == 66
    && SignedFor(cp.core.operatorPubkey, cp.operatorSignature, CheckpointMessage(cp.core, cp.anchor))
  }

  lemma CheckpointExact(cp: Checkpoint)
    ensures VerifyCheckpoint(cp) == Ok(true) <==> Genuine(cp)
  {
    hide VerifyMessage, SignedFor;
    VerifyMessageExact(CheckpointMessage(cp.core, cp.anchor), cp.operatorSignature, cp.core.operatorPubkey);
  }

  // ---------------------------------------------------------------------------------------
  // The pin store
  // ---------------------------------------------------------------------------------------

  datatype Pin = Pin(logId: string, treeSize: nat, rootHash: HashText, signature: Signature<CheckpointMessage>,
          timestamp: int)

  datatype EquivocationRecord = EquivocationRecord(logId: string, treeSize: nat, firstSeen: Pin, conflicting: Pin,
          detectedAt: int)

  datatype Error =
    | InvalidSignature
    | Rollback(pinned: nat, proposed: nat)
    | EquivocationDetected(logId: string, treeSize: nat)
    | InvalidConsistencyProof
    | QuorumNotMet(required: nat, actual: nat)

  datatype State = State(pins: map<string, Pin>, equivocations: map<string, seq<EquivocationRecord>>)

  function PinOf(cp: Checkpoint): Pin {
    Pin(cp.core.logId, cp.core.logSize, cp.core.logRoot, cp.operatorSignature, cp.core.createdAt)
  }

  function Recorded(equivocations: map<string, seq<EquivocationRecord>>, logId: string): seq<EquivocationRecord> {
    if logId in equivocations then equivocations[logId] else []
  }

  function PinFor(state: State, logId: string): Option<Pin> {
    if logId in state.pins then Some(state.pins[logId]) else None
  }

  class MemoryPinStore {
    var pins: map<string, Pin>
    var equivocations: map<string, seq<EquivocationRecord>>

    constructor ()
      ensures pins == map[] && equivocations == map[]
    {
      pins, equivocations := map[], map[];
    }

    function Snapshot(): State
      reads this
    {
      State(pins, equivocations)
    }

    method GetPin(logId: string) returns (pin: Option<Pin>)
      ensures pin == PinFor(Snapshot(), logId)
    {
      pin := if logId in pins then Some(pins[logId]) else None;
    }

    method SavePin(pin: Pin)
      modifies this`pins
      ensures pins == old(pins)[pin.logId := pin]
    {
      pins := pins[pin.logId := pin];
    }

    method RecordEquivocation(logId: string, treeSize: nat, firstSeen: Pin, conflicting: Pin, now: int)
      modifies this`equivocations
      ensures equivocations == old(equivocations)[logId :=
                Recorded(old(equivocations), logId)
                  + [EquivocationRecord(logId, treeSize, firstSeen, conflicting, now)]]
    {
      var record := EquivocationRecord(logId, treeSize, firstSeen, conflicting, now);
      equivocations := equivocations[logId := Recorded(equivocations, logId) + [record]];
    }
  }

  // ---------------------------------------------------------------------------------------
  // Processing a checkpoint
  // ---------------------------------------------------------------------------------------

  predicate ProofFits(proof: Option<ConsistencyProofMessage>, pin: Pin, core: CheckpointCore) {
    && proof.Some?
    && proof.value.oldTreeSize == pin.treeSize && proof.value.newTreeSize == core.logSize
    && proof.value.oldRoot == pin.rootHash && proof.value.newRoot == core.logRoot
    && ConsistencyVerdict(proof.value) == Accepted(true)
  }

  /** The verdict of the pinned-state checks. */
  function CheckPin(pin: Option<Pin>, core: CheckpointCore, proof: Option<ConsistencyProofMessage>): Result<(), Error> {
    if pin.None? then Ok(())
    else if core.logSize < pin.value.treeSize then Err(Rollback(pin.value.treeSize, core.logSize))
    else if core.logSize == pin.value.treeSize then
      if core.logRoot != pin.value.rootHash then Err(EquivocationDetected(core.logId, core.logSize)) else Ok(())
    else if ProofFits(proof, pin.value, core) then Ok(())
    else Err(InvalidConsistencyProof)
  }

  function Cosign(witnessId: string, secret: SecretKey, core: CheckpointCore, now: int): Cosignature {
    Cosignature(witnessId, PublicHex(secret), HashOf(core), core.logSize, now,
                Sign(CosignMessage(witnessId, HashOf(core), core.logSize, now), secret))
  }

  function CheckAll(state: State, cp: Checkpoint, proof: Option<ConsistencyProofMessage>): Result<(), Error> {
    if VerifyCheckpoint(cp) != Ok(true) then Err(InvalidSignature)
    else CheckPin(PinFor(state, cp.core.logId), cp.core, proof)
  }

  /** The witness's state after a call. */
  function NextState(state: State, cp: Checkpoint, proof: Option<ConsistencyProofMessage>, now: int): State {
    var logId := cp.core.logId;
    match CheckAll(state, cp, proof)
    case Ok(_) => state.(pins := state.pins[logId := PinOf(cp)])
    case Err(EquivocationDetected(_, _)) =>
      state.(equivocations := state.equivocations[logId := Recorded(state.equivocations, logId)
        + [EquivocationRecord(logId, cp.core.logSize, state.pins[logId], PinOf(cp), now)]])
    case Err(_) => state
  }

  class WitnessService {
    const witnessId: string
    const keypair: SecretKey
    const store: MemoryPinStore

    constructor (witnessId: string, keypair: SecretKey, store: MemoryPinStore)
      ensures this.witnessId == witnessId && this.keypair == keypair && this.store == store
    {
      this.witnessId, this.keypair, this.store := witnessId, keypair, store;
    }

    /** `now` is the clock, read once when an equivocation is recorded or a cosignature is made. */
    method ProcessCheckpoint(cp: Checkpoint, proof: Option<ConsistencyProofMessage>, now: int)
      returns (r: Result<Cosignature, Error>)
      modifies store
      ensures store.Snapshot() == NextState(old(store.Snapshot()), cp, proof, now)
      ensures var verdict := CheckAll(old(store.Snapshot()), cp, proof);
              r == if verdict.Ok? then Ok(Cosign(witnessId, keypair, cp.core, now)) else Err(verdict.error)
      ensures r == Err(InvalidSignature) <==> !Genuine(cp)
    {
      hide Genuine;
      CheckpointExact(cp);
      var signatureValid := VerifyCheckpoint(cp);
      if signatureValid != Ok(true) {
        return Err(InvalidSignature);
      }

      var pinned := store.GetPin(cp.core.logId);
      if pinned.Some? {
        var pin := pinned.value;
        if cp.core.logSize < pin.treeSize {
          return Err(Rollback(pin.treeSize, cp.core.logSize));
        }
        if cp.core.logSize == pin.treeSize && cp.core.logRoot != pin.rootHash {
          store.RecordEquivocation(cp.core.logId, cp.core.logSize, pin, PinOf(cp), now);
          return Err(EquivocationDetected(cp.core.logId, cp.core.logSize));
        }
        if cp.core.logSize > pin.treeSize {
          if proof.None? {
            return Err(InvalidConsistencyProof);
          }
          var p := proof.value;
          if p.oldTreeSize != pin.treeSize || p.newTreeSize != cp.core.logSize
             || p.oldRoot != pin.rootHash || p.newRoot != cp.core.logRoot
          {
            return Err(InvalidConsistencyProof);
          }
          var proofValid := VerifyConsistencyProof(p);
          if proofValid != Accepted(true) {
            return Err(InvalidConsistencyProof);
          }
        }
      }

      store.SavePin(PinOf(cp));
      return Ok(Cosign(witnessId, keypair, cp.core, now));
    }
  }

  // ---------------------------------------------------------------------------------------
  // The quorum policy
  // ---------------------------------------------------------------------------------------

  datatype Policy = Policy(requiredQuorum: Byte, authorizedPubkeys: set<string>)

  predicate Vouches(c: Cosignature, cp: Checkpoint) {
    && c.checkpointHash == HashOf(cp.core) && c.treeSize == cp.core.logSize
    && VerifyMessage(SigningMessage(c), c.signature, c.witnessPubkey) == Ok(true)
  }

  /** A cosignature vouches for a checkpoint exactly when its key signed the message of its own
      witness and time for this checkpoint's hash and size, and it shows this hash and size. */
  lemma VouchesExact(c: Cosignature, cp: Checkpoint)
    ensures Vouches(c, cp) <==>
            c == Cosignature(c.witnessId, c.witnessPubkey, HashOf(cp.core), cp.core.logSize, c.timestamp, c.signature)
            && SignedFor(c.witnessPubkey, c.signature,
                         CosignMessage(c.witnessId, HashOf(cp.core), cp.core.logSize, c.timestamp))
  {
    hide VerifyMessage, SignedFor;
    VerifyMessageExact(SigningMessage(c), c.signature, c.witnessPubkey);
  }

  /** What a witness sends after a success vouches under its own key, name and time. */
  lemma CosignExact(witnessId: string, secret: SecretKey, cp: Checkpoint, now: int)
    ensures var c := Cosign(witnessId, secret, cp.core, now);
            && Vouches(c, cp) && c.witnessId == witnessId && c.timestamp == now
            && c.signature.signer == secret.x && Names(c.witnessPubkey, secret.x)
  {
    hide PublicHex, SignerOf, Names;
    PublicHexDecodes(secret);
    SignerExact(PublicHex(secret), secret.x);
  }

  /** The authorized keys under which at least one cosignature vouches for the checkpoint. */
  ghost function Vouchers(policy: Policy, cp: Checkpoint, cosignatures: seq<Cosignature>): set<string> {
    set c | c in cosignatures && c.witnessPubkey in policy.authorizedPubkeys && Vouches(c, cp) :: c.witnessPubkey
  }

  /** Counts every authorized key once, however many cosignatures it sent. */
  method VerifyQuorum(policy: Policy, cp: Checkpoint, cosignatures: seq<Cosignature>) returns (r: Result<nat, Error>)
    ensures var n := |Vouchers(policy, cp, cosignatures)|;
            r == if n >= policy.requiredQuorum then Ok(n) else Err(QuorumNotMet(policy.requiredQuorum, n))
  {
    var verified: set<string> := {};
    for i := 0 to |cosignatures|
      invariant verified == Vouchers(policy, cp, cosignatures[..i])
    {
      var c := cosignatures[i];
      assert cosignatures[..i + 1] == cosignatures[..i] + [c];
      if c.witnessPubkey !in policy.authorizedPubkeys {
        continue;
      }
      if c.checkpointHash != HashOf(cp.core) || c.treeSize != cp.core.logSize {
        continue;
      }
      if VerifyMessage(SigningMessage(c), c.signature, c.witnessPubkey) == Ok(true) {
        verified := verified + {c.witnessPubkey};
      }
    }
    assert cosignatures[..|cosignatures|] == cosignatures;
    if |verified| >= policy.requiredQuorum {
      return Ok(|verified|);
    } else {
      return Err(QuorumNotMet(policy.requiredQuorum, |verified|));
    }
  }
}
