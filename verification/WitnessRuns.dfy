/** Runs of one witness, and of many witnesses interleaved in any order, some of them dishonest:
    what the pins keep, and why a quorum excludes split views.
  */
module WitnessRuns {
  import opened Prelude
  import opened Merkle
  import opened Crypto
  import opened Witness

  // ---------------------------------------------------------------------------------------
  // Chains of verified consistency proofs
  // ---------------------------------------------------------------------------------------

  datatype TreeHead = TreeHead(size: nat, root: HashText)

  ghost predicate IsChain(chain: seq<ConsistencyProofMessage>, a: TreeHead, b: TreeHead)
    decreases |chain|
  {
    if chain == [] then a == b
    else
      && ConsistencyVerdict(chain[0]) == Accepted(true)
      && chain[0].oldTreeSize == a.size && chain[0].oldRoot == a.root
      && IsChain(chain[1..], TreeHead(chain[0].newTreeSize, chain[0].newRoot), b)
  }

  /** `b` is reached from `a` by verified consistency proofs. */
  ghost predicate Reaches(a: TreeHead, b: TreeHead) {
    exists chain :: IsChain(chain, a, b)
  }

  lemma {:induction false} ChainConcat(c: seq<ConsistencyProofMessage>, d: seq<ConsistencyProofMessage>, x: TreeHead,
          y: TreeHead, z: TreeHead)
    requires IsChain(c, x, y) && IsChain(d, y, z)
    ensures IsChain(c + d, x, z)
    decreases |c|
  {
    hide ConsistencyVerdict;
    if c == [] {
      assert c + d == d;
    } else {
      ChainConcat(c[1..], d, TreeHead(c[0].newTreeSize, c[0].newRoot), y, z);
      assert (c + d)[1..] == c[1..] + d && (c + d)[0] == c[0];
    }
  }

  lemma ReachesSelf(a: TreeHead)
    ensures Reaches(a, a)
  {
    assert IsChain([], a, a);
  }

  lemma ReachesStep(proof: ConsistencyProofMessage)
    requires ConsistencyVerdict(proof) == Accepted(true)
    ensures Reaches(TreeHead(proof.oldTreeSize, proof.oldRoot), TreeHead(proof.newTreeSize, proof.newRoot))
  {
    var b := TreeHead(proof.newTreeSize, proof.newRoot);
    assert IsChain([], b, b);
    assert [proof][1..] == [];
    assert IsChain([proof], TreeHead(proof.oldTreeSize, proof.oldRoot), b);
  }

  lemma ReachesTransitive(a: TreeHead, b: TreeHead, c: TreeHead)
    requires Reaches(a, b) && Reaches(b, c)
    ensures Reaches(a, c)
  {
    var d :| IsChain(d, a, b);
    var e :| IsChain(e, b, c);
    ChainConcat(d, e, a, b, c);
  }

  /** The head names the size and the root of this log. */
  ghost predicate Heads(head: TreeHead, leaves: seq<Digest>) {
    head.size == |leaves| && head.root.Spelled? && head.root.digest == Root(leaves)
  }

  lemma {:induction false} ChainIsPrefix(chain: seq<ConsistencyProofMessage>, a: TreeHead, b: TreeHead,
          leaves: seq<Digest>)
    requires IsChain(chain, a, b) && Heads(b, leaves)
    ensures a.size <= |leaves| && Heads(a, leaves[..a.size])
    decreases |chain|
  {
    hide ConsistencyVerdict, Root;
    if chain == [] {
      assert leaves[..|leaves|] == leaves;
    } else {
      var next := TreeHead(chain[0].newTreeSize, chain[0].newRoot);
      ChainIsPrefix(chain[1..], next, b, leaves);
      AcceptedProofIsPrefix(chain[0], leaves[..next.size]);
      assert leaves[..next.size][..a.size] == leaves[..a.size];
    }
  }

  /** Whatever log has the later head, the earlier head is the root of a prefix of that log. */
  lemma ReachesPrefix(a: TreeHead, b: TreeHead, leaves: seq<Digest>)
    requires Reaches(a, b) && Heads(b, leaves)
    ensures a.size <= |leaves| && Heads(a, leaves[..a.size])
  {
    var chain :| IsChain(chain, a, b);
    ChainIsPrefix(chain, a, b, leaves);
  }

  // ---------------------------------------------------------------------------------------
  // Runs
  // ---------------------------------------------------------------------------------------

  /** A call that the witness holding key `signer` handles to its end. */
  datatype Call = Call(signer: Point, cp: Checkpoint, proof: Option<ConsistencyProofMessage>, now: int)

  /** The state of one witness after the first `n` calls of an interleaved run. */
  function StateOf(run: seq<Call>, n: nat, w: Point): State
    requires n <= |run|
  {
    if n == 0 then State(map[], map[])
    else
      var before := StateOf(run, n - 1, w);
      var call := run[n - 1];
      if call.signer == w then NextState(before, call.cp, call.proof, call.now) else before
  }

  predicate Succeeds(run: seq<Call>, k: nat)
    requires k < |run|
  {
    CheckAll(StateOf(run, k, run[k].signer), run[k].cp, run[k].proof).Ok?
  }

  function PinAt(run: seq<Call>, n: nat, w: Point, logId: string): Option<Pin>
    requires n <= |run|
  {
    PinFor(StateOf(run, n, w), logId)
  }

  function HeadOf(pin: Pin): TreeHead {
    TreeHead(pin.treeSize, pin.rootHash)
  }

  function CheckpointHead(cp: Checkpoint): TreeHead {
    TreeHead(cp.core.logSize, cp.core.logRoot)
  }

  /** What a witness reads after a call: the checkpoint's pin for its log if the call succeeded,
      and every other pin as before. */
  lemma PinAfterCall(state: State, cp: Checkpoint, proof: Option<ConsistencyProofMessage>, now: int, logId: string)
    ensures PinFor(NextState(state, cp, proof, now), logId)
            == if logId == cp.core.logId && CheckAll(state, cp, proof).Ok? then Some(PinOf(cp))
               else PinFor(state, logId)
  {
    hide VerifyCheckpoint, CheckPin;
  }

  lemma StepReaches(state: State, cp: Checkpoint, proof: Option<ConsistencyProofMessage>, now: int, logId: string)
    requires PinFor(state, logId).Some?
    ensures var after := PinFor(NextState(state, cp, proof, now), logId);
            && after.Some?
            && PinFor(state, logId).value.treeSize <= after.value.treeSize
            && (PinFor(state, logId).value.treeSize == after.value.treeSize
                ==> PinFor(state, logId).value.rootHash == after.value.rootHash)
            && Reaches(HeadOf(PinFor(state, logId).value), HeadOf(after.value))
  {
    hide VerifyCheckpoint, ConsistencyVerdict, Reaches, NextState;
    PinAfterCall(state, cp, proof, now, logId);
    var pin := PinFor(state, logId).value;
    ReachesSelf(HeadOf(pin));
    if logId == cp.core.logId && ProofFits(proof, pin, cp.core) {
      ReachesStep(proof.value);
    }
  }

  /** Pins only move forward: once a log is pinned it stays pinned, its size never decreases, and
      every later pin is reached from every earlier one by verified consistency proofs. */
  lemma {:induction false} PinsMoveForward(run: seq<Call>, i: nat, j: nat, w: Point, logId: string)
    requires i <= j <= |run| && PinAt(run, i, w, logId).Some?
    ensures PinAt(run, j, w, logId).Some?
    ensures PinAt(run, i, w, logId).value.treeSize <= PinAt(run, j, w, logId).value.treeSize
    ensures PinAt(run, i, w, logId).value.treeSize == PinAt(run, j, w, logId).value.treeSize ==>
              PinAt(run, i, w, logId).value.rootHash == PinAt(run, j, w, logId).value.rootHash
    ensures Reaches(HeadOf(PinAt(run, i, w, logId).value), HeadOf(PinAt(run, j, w, logId).value))
    decreases j
  {
    hide NextState, Reaches;
    if i == j {
      ReachesSelf(HeadOf(PinAt(run, i, w, logId).value));
    } else {
      PinsMoveForward(run, i, j - 1, w, logId);
      var call := run[j - 1];
      if call.signer == w {
        StepReaches(StateOf(run, j - 1, w), call.cp, call.proof, call.now, logId);
        ReachesTransitive(HeadOf(PinAt(run, i, w, logId).value), HeadOf(PinAt(run, j - 1, w, logId).value),
                          HeadOf(PinAt(run, j, w, logId).value));
      }
    }
  }

  lemma SuccessPins(run: seq<Call>, k: nat)
    requires k < |run| && Succeeds(run, k)
    ensures PinAt(run, k + 1, run[k].signer, run[k].cp.core.logId) == Some(PinOf(run[k].cp))
  {
    hide VerifyCheckpoint, CheckPin;
  }

  /** Of two checkpoints of one log that a witness cosigned, the later one is reached from the
      earlier one. */
  lemma CosignedInOrder(run: seq<Call>, i: nat, j: nat)
    requires i <= j < |run| && run[i].signer == run[j].signer && run[i].cp.core.logId == run[j].cp.core.logId
    requires Succeeds(run, i) && Succeeds(run, j)
    ensures run[i].cp.core.logSize <= run[j].cp.core.logSize
    ensures run[i].cp.core.logSize == run[j].cp.core.logSize ==> run[i].cp.core.logRoot == run[j].cp.core.logRoot
    ensures Reaches(CheckpointHead(run[i].cp), CheckpointHead(run[j].cp))
  {
    hide StateOf, PinAt, Succeeds, Reaches;
    var w, logId := run[i].signer, run[i].cp.core.logId;
    SuccessPins(run, i);
    SuccessPins(run, j);
    PinsMoveForward(run, i + 1, j + 1, w, logId);
  }

  /** A witness never cosigns two roots of one log at one size, not even two spellings of one. */
  lemma OneRootPerSize(run: seq<Call>, i: nat, j: nat)
    requires i < |run| && j < |run| && run[i].signer == run[j].signer
    requires run[i].cp.core.logId == run[j].cp.core.logId && run[i].cp.core.logSize == run[j].cp.core.logSize
    requires Succeeds(run, i) && Succeeds(run, j)
    ensures run[i].cp.core.logRoot == run[j].cp.core.logRoot
  {
    hide Succeeds;
    var lo, hi := if i <= j then i else j, if i <= j then j else i;
    CosignedInOrder(run, lo, hi);
  }

  /** A refused call leaves every pin as it was; only an equivocation leaves a trace, and it names
      the pin of that moment and a different root for the same log and size. */
  lemma RefusalKeepsPins(state: State, cp: Checkpoint, proof: Option<ConsistencyProofMessage>, now: int)
    requires CheckAll(state, cp, proof).Err?
    ensures NextState(state, cp, proof, now).pins == state.pins
    ensures NextState(state, cp, proof, now).equivocations != state.equivocations
        <==> CheckAll(state, cp, proof).error.EquivocationDetected?
    ensures CheckAll(state, cp, proof).error.EquivocationDetected? ==>
              var logId := cp.core.logId;
              && logId in state.pins
              && Recorded(NextState(state, cp, proof, now).equivocations, logId)
                 == Recorded(state.equivocations, logId)
                  + [EquivocationRecord(logId, cp.core.logSize, state.pins[logId], PinOf(cp), now)]
  {
    hide VerifyCheckpoint, ConsistencyVerdict;
    var logId := cp.core.logId;
    if CheckAll(state, cp, proof).error.EquivocationDetected? {
      assert |Recorded(NextState(state, cp, proof, now).equivocations, logId)| > |Recorded(state.equivocations, logId)|;
    }
  }

  ghost predicate RecordSound(logId: string, r: EquivocationRecord) {
    && r.logId == logId == r.firstSeen.logId == r.conflicting.logId
    && r.treeSize == r.firstSeen.treeSize == r.conflicting.treeSize
    && r.firstSeen.rootHash.Spelled? && r.conflicting.rootHash.Spelled?
    && r.firstSeen.rootHash != r.conflicting.rootHash
  }

  ghost predicate StateSound(state: State) {
    && (forall logId | logId in state.pins :: state.pins[logId].logId == logId && state.pins[logId].rootHash.Spelled?)
    && (forall logId, r | logId in state.equivocations && r in state.equivocations[logId] :: RecordSound(logId, r))
  }

  lemma RootDecodes(cp: Checkpoint)
    ensures VerifyCheckpoint(cp) == Ok(true) ==> cp.core.logRoot.Spelled?
  {
  }

  lemma StepSound(state: State, cp: Checkpoint, proof: Option<ConsistencyProofMessage>, now: int)
    requires StateSound(state)
    ensures StateSound(NextState(state, cp, proof, now))
  {
    hide VerifyCheckpoint, ConsistencyVerdict;
    RootDecodes(cp);
  }

  /** In every run, every equivocation record of every witness holds two different root texts of
      one log at one size. */
  lemma {:induction false} RecordsAreEvidence(run: seq<Call>, n: nat, w: Point)
    requires n <= |run|
    ensures StateSound(StateOf(run, n, w))
  {
    hide NextState, StateSound;
    if n == 0 {
      EmptySound();
    } else {
      RecordsAreEvidence(run, n - 1, w);
      var call := run[n - 1];
      StepSound(StateOf(run, n - 1, w), call.cp, call.proof, call.now);
    }
  }

  /** The texts differ, and so may their case only: a checkpoint that spells the pinned root with
      other capitals is recorded as an equivocation, although the log did not fork. Whatever logs
      are behind the pin and the checkpoint, they differ exactly when the two digests do. */
  lemma AlarmIsRealExact(state: State, cp: Checkpoint, proof: Option<ConsistencyProofMessage>, pinned: seq<Digest>,
          proposed: seq<Digest>)
    requires VerifyCheckpoint(cp) == Ok(true)
    requires cp.core.logId in state.pins && state.pins[cp.core.logId].treeSize == cp.core.logSize
    requires state.pins[cp.core.logId].rootHash != cp.core.logRoot
    requires Heads(HeadOf(state.pins[cp.core.logId]), pinned) && Heads(CheckpointHead(cp), proposed)
    ensures CheckAll(state, cp, proof) == Err(EquivocationDetected(cp.core.logId, cp.core.logSize))
    ensures pinned != proposed <==> state.pins[cp.core.logId].rootHash.digest != cp.core.logRoot.digest
  {
    hide Root, ConsistencyVerdict;
    if state.pins[cp.core.logId].rootHash.digest == cp.core.logRoot.digest {
      RootInjective(pinned, proposed);
    }
  }

  /** The pin's signature was made over a checkpoint of its log, size, root and time, by the key
      that this checkpoint names. */
  ghost predicate SignedPin(pin: Pin) {
    && pin.signature.Signed?
    && var core := pin.signature.message.core;
    && core.logId == pin.logId && core.logSize == pin.treeSize && core.logRoot == pin.rootHash
    && core.createdAt == pin.timestamp
    && FieldsFit(core) && Names(core.operatorPubkey, pin.signature.signer)
  }

  ghost predicate StateSigned(state: State) {
    && (forall logId | logId in state.pins :: SignedPin(state.pins[logId]))
    && (forall logId, r | logId in state.equivocations && r in state.equivocations[logId] ::
          SignedPin(r.firstSeen) && SignedPin(r.conflicting))
  }

  lemma GenuinePin(cp: Checkpoint)
    requires Genuine(cp)
    ensures SignedPin(PinOf(cp))
  {
    hide Names;
  }

  lemma StepSigned(state: State, cp: Checkpoint, proof: Option<ConsistencyProofMessage>, now: int)
    requires StateSigned(state)
    ensures StateSigned(NextState(state, cp, proof, now))
  {
    hide VerifyCheckpoint, ConsistencyVerdict, SignedPin, Genuine, PinOf;
    CheckpointExact(cp);
    if Genuine(cp) {
      GenuinePin(cp);
    }
  }

  /** In every run, every pin and both sides of every equivocation record are signed by the key that
      their checkpoint names, over a checkpoint of that log, size and root. */
  lemma {:induction false} EvidenceIsSigned(run: seq<Call>, n: nat, w: Point)
    requires n <= |run|
    ensures StateSigned(StateOf(run, n, w))
  {
    hide NextState, SignedPin;
    if n > 0 {
      EvidenceIsSigned(run, n - 1, w);
      var call := run[n - 1];
      StepSigned(StateOf(run, n - 1, w), call.cp, call.proof, call.now);
    }
  }

  lemma CosignedIsGenuine(run: seq<Call>, k: nat)
    requires k < |run| && Succeeds(run, k)
    ensures Genuine(run[k].cp)
  {
    hide VerifyCheckpoint, Genuine, CheckPin;
    CheckpointExact(run[k].cp);
  }

  /** Which call has which outcome. */
  lemma VerdictExact(state: State, cp: Checkpoint, proof: Option<ConsistencyProofMessage>)
    ensures var (verdict, pin) := (CheckAll(state, cp, proof), PinFor(state, cp.core.logId));
            && (verdict == Err(InvalidSignature) <==> !Genuine(cp))
            && (verdict.Err? && verdict.error.Rollback? <==>
                  Genuine(cp) && pin.Some? && CheckpointHead(cp).size < HeadOf(pin.value).size)
            && (verdict == Err(EquivocationDetected(cp.core.logId, cp.core.logSize)) <==>
                  Genuine(cp) && pin.Some? && CheckpointHead(cp).size == HeadOf(pin.value).size
                  && CheckpointHead(cp) != HeadOf(pin.value))
            && (verdict.Ok? <==>
                  Genuine(cp) && (pin.None? || CheckpointHead(cp) == HeadOf(pin.value)
                                  || (CheckpointHead(cp).size > HeadOf(pin.value).size && proof.Some?
                                      && IsChain([proof.value], HeadOf(pin.value), CheckpointHead(cp)))))
  {
    hide VerifyCheckpoint, Genuine, ConsistencyVerdict;
    CheckpointExact(cp);
    if proof.Some? {
      assert [proof.value][1..] == [];
    }
  }

  lemma EmptySound()
    ensures StateSound(State(map[], map[]))
  {
  }

  // ---------------------------------------------------------------------------------------
  // Honest operators
  // ---------------------------------------------------------------------------------------

  /** The checkpoint shows a beginning of the log, with its root spelled in lower case. */
  ghost predicate Shows(head: TreeHead, leaves: seq<Digest>) {
    0 < head.size <= |leaves| && head.root == Spell(Root(leaves[..head.size]))
  }

  /** Call `k` shows a signed beginning of its log, not shorter than the witness's pin, with the
      proof that the log serves for the two sizes. */
  ghost predicate Served(run: seq<Call>, k: nat, logs: string -> seq<Digest>)
    requires k < |run|
  {
    var cp := run[k].cp;
    var pin := PinAt(run, k, run[k].signer, cp.core.logId);
    && Genuine(cp) && Shows(CheckpointHead(cp), logs(cp.core.logId))
    && (pin.Some? ==>
          pin.value.treeSize <= cp.core.logSize
          && (pin.value.treeSize < cp.core.logSize ==>
                run[k].proof == LogConsistency(logs(cp.core.logId), pin.value.treeSize, cp.core.logSize)))
  }

  lemma ServedStep(state: State, cp: Checkpoint, proof: Option<ConsistencyProofMessage>, leaves: seq<Digest>)
    requires Genuine(cp) && Shows(CheckpointHead(cp), leaves)
    requires var pin := PinFor(state, cp.core.logId);
             pin.Some? ==>
               && Shows(HeadOf(pin.value), leaves) && pin.value.treeSize <= cp.core.logSize
               && (pin.value.treeSize < cp.core.logSize ==>
                     proof == LogConsistency(leaves, pin.value.treeSize, cp.core.logSize))
    ensures CheckAll(state, cp, proof).Ok?
  {
    hide VerifyCheckpoint, Genuine, ConsistencyVerdict, Root, LogConsistency;
    CheckpointExact(cp);
    var pin := PinFor(state, cp.core.logId);
    if pin.Some? && pin.value.treeSize < cp.core.logSize {
      HonestProofAccepted(leaves, pin.value.treeSize, cp.core.logSize);
      LogConsistencyHeads(leaves, pin.value.treeSize, cp.core.logSize);
    }
  }

  lemma LogConsistencyHeads(leaves: seq<Digest>, oldSize: nat, newSize: nat)
    requires LogConsistency(leaves, oldSize, newSize).Some?
    ensures var proof := LogConsistency(leaves, oldSize, newSize).value;
            && proof.oldTreeSize == oldSize && proof.newTreeSize == newSize && newSize <= |leaves|
            && oldSize <= newSize
            && proof.oldRoot == Spell(Root(leaves[..oldSize])) && proof.newRoot == Spell(Root(leaves[..newSize]))
  {
    hide Root, ConsistencyProof, SpellAll;
  }

  lemma NoPinsAtFirst(run: seq<Call>, w: Point, logId: string)
    ensures PinAt(run, 0, w, logId).None?
  {
  }

  /** Whatever pin a witness has of a log that is honestly served shows a beginning of that log. */
  lemma {:induction false} ServedPins(run: seq<Call>, n: nat, w: Point, logId: string, logs: string -> seq<Digest>)
    requires n <= |run| && (forall k | 0 <= k < n :: Served(run, k, logs))
    requires PinAt(run, n, w, logId).Some?
    ensures Shows(HeadOf(PinAt(run, n, w, logId).value), logs(logId))
  {
    hide CheckAll, Genuine, Root, LogConsistency, NextState;
    NoPinsAtFirst(run, w, logId);
    if n > 0 {
      var call := run[n - 1];
      if call.signer == w {
        PinAfterCall(StateOf(run, n - 1, w), call.cp, call.proof, call.now, logId);
      }
      if PinAt(run, n, w, logId) == PinAt(run, n - 1, w, logId) {
        ServedPins(run, n - 1, w, logId, logs);
      } else {
        assert Served(run, n - 1, logs);
      }
    }
  }

  /** Operators that serve one append-only log each are always cosigned: in a run where every
      checkpoint shows a beginning of its log that is not shorter than the witness's pin, with the
      log's own proof, every call succeeds. */
  lemma HonestOperatorsCosigned(run: seq<Call>, k: nat, logs: string -> seq<Digest>)
    requires k < |run| && forall i | 0 <= i <= k :: Served(run, i, logs)
    ensures Succeeds(run, k)
  {
    hide CheckAll, Genuine, Shows, LogConsistency, StateOf;
    var logId := run[k].cp.core.logId;
    assert Served(run, k, logs);
    if PinAt(run, k, run[k].signer, logId).Some? {
      ServedPins(run, k, run[k].signer, logId, logs);
    }
    ServedStep(StateOf(run, k, run[k].signer), run[k].cp, run[k].proof, logs(logId));
  }

  // ---------------------------------------------------------------------------------------
  // No split view
  // ---------------------------------------------------------------------------------------

  /** Signatures under an honest witness key on a cosignature message come only from its own
      successful calls; everybody else may sign whatever they like. */
  ghost predicate Unforged(run: seq<Call>, honest: set<Point>, cosignatures: seq<Cosignature>) {
    forall c | c in cosignatures && c.signature.Signed? && c.signature.signer in honest ::
      exists k | 0 <= k < |run| :: CosignedAt(run, k, c)
  }

  ghost predicate CosignedAt(run: seq<Call>, k: nat, c: Cosignature)
    requires k < |run|
  {
    && Succeeds(run, k) && c.signature.Signed? && run[k].signer == c.signature.signer
    && c.signature.message.checkpointHash == HashOf(run[k].cp.core)
    && c.signature.message.treeSize == run[k].cp.core.logSize
  }

  /** Authorized keys that no honest witness holds. */
  ghost function Dishonest(policy: Policy, honest: set<Point>): set<string> {
    set k | k in policy.authorizedPubkeys && (SignerOf(k).None? || SignerOf(k).value !in honest)
  }

  lemma {:induction false} SubsetSize<T>(a: set<T>, b: set<T>)
    requires a <= b
    ensures |a| <= |b|
  {
    assert b == a + (b - a);
  }

  /** Two large quorums share a key that is not in a small set. */
  lemma QuorumsMeet<T>(all: set<T>, q1: set<T>, q2: set<T>, bad: set<T>) returns (k: T)
    requires q1 <= all && q2 <= all && |q1| + |q2| > |all| + |bad|
    ensures k in q1 && k in q2 && k !in bad
  {
    SubsetSize(q1 + q2, all);
    assert |q1 + q2| + |q1 * q2| == |q1| + |q2|;
    if q1 * q2 <= bad {
      SubsetSize(q1 * q2, bad);
    }
    k :| k in q1 * q2 && k !in bad;
  }

  lemma VouchedByHonest(run: seq<Call>, honest: set<Point>, policy: Policy, cp: Checkpoint,
          cosignatures: seq<Cosignature>, key: string)
    returns (k: nat)
    requires Unforged(run, honest, cosignatures)
    requires key in Vouchers(policy, cp, cosignatures) && key !in Dishonest(policy, honest)
    ensures k < |run| && Succeeds(run, k) && Some(run[k].signer) == SignerOf(key) && run[k].cp.core == cp.core
  {
    var c :| c in cosignatures && c.witnessPubkey == key && Vouches(c, cp);
    hide Succeeds;
    k :| 0 <= k < |run| && CosignedAt(run, k, c);
  }

  /** With N authorized keys, threshold K, at most f of the keys in dishonest hands and
      2K > N + f: any two checkpoints of one log that reach the quorum, in any run of the
      witnesses, lie on one chain of verified consistency proofs. */
  lemma NoSplitView(run: seq<Call>, honest: set<Point>, policy: Policy,
                    cp1: Checkpoint, cosigs1: seq<Cosignature>, cp2: Checkpoint, cosigs2: seq<Cosignature>)
    requires Unforged(run, honest, cosigs1) && Unforged(run, honest, cosigs2)
    requires 2 * policy.requiredQuorum > |policy.authorizedPubkeys| + |Dishonest(policy, honest)|
    requires |Vouchers(policy, cp1, cosigs1)| >= policy.requiredQuorum
    requires |Vouchers(policy, cp2, cosigs2)| >= policy.requiredQuorum
    requires cp1.core.logId == cp2.core.logId
    ensures Reaches(CheckpointHead(cp1), CheckpointHead(cp2)) || Reaches(CheckpointHead(cp2), CheckpointHead(cp1))
    ensures cp1.core.logSize == cp2.core.logSize ==> cp1.core.logRoot == cp2.core.logRoot
  {
    var key := QuorumsMeet(policy.authorizedPubkeys, Vouchers(policy, cp1, cosigs1), Vouchers(policy, cp2, cosigs2),
                           Dishonest(policy, honest));
    var i := VouchedByHonest(run, honest, policy, cp1, cosigs1, key);
    var j := VouchedByHonest(run, honest, policy, cp2, cosigs2, key);
    hide Succeeds, Reaches, Vouchers, Dishonest, Unforged;
    if i <= j {
      CosignedInOrder(run, i, j);
    } else {
      CosignedInOrder(run, j, i);
    }
    if cp1.core.logSize == cp2.core.logSize {
      OneRootPerSize(run, i, j);
    }
  }

  /** Down to the entries: two logs that could be behind two such checkpoints agree on everything
      the shorter one contains. */
  lemma NoSplitLog(run: seq<Call>, honest: set<Point>, policy: Policy,
                   cp1: Checkpoint, cosigs1: seq<Cosignature>, log1: seq<Digest>,
                   cp2: Checkpoint, cosigs2: seq<Cosignature>, log2: seq<Digest>)
    requires Unforged(run, honest, cosigs1) && Unforged(run, honest, cosigs2)
    requires 2 * policy.requiredQuorum > |policy.authorizedPubkeys| + |Dishonest(policy, honest)|
    requires |Vouchers(policy, cp1, cosigs1)| >= policy.requiredQuorum
    requires |Vouchers(policy, cp2, cosigs2)| >= policy.requiredQuorum
    requires cp1.core.logId == cp2.core.logId
    requires Heads(CheckpointHead(cp1), log1) && Heads(CheckpointHead(cp2), log2)
    ensures log1 <= log2 || log2 <= log1
  {
    NoSplitView(run, honest, policy, cp1, cosigs1, cp2, cosigs2);
    hide Reaches, Vouchers, Dishonest, Unforged, Root;
    if Reaches(CheckpointHead(cp1), CheckpointHead(cp2)) {
      ReachesPrefix(CheckpointHead(cp1), CheckpointHead(cp2), log2);
      RootInjective(log1, log2[..|log1|]);
    } else {
      ReachesPrefix(CheckpointHead(cp2), CheckpointHead(cp1), log1);
      RootInjective(log2, log1[..|log2|]);
    }
  }

  // ---------------------------------------------------------------------------------------
  // The bound is tight
  // ---------------------------------------------------------------------------------------

  ghost predicate DistinctKeys(keys: seq<SecretKey>) {
    forall i, j :: 0 <= i < j < |keys| ==> keys[i].x != keys[j].x
  }

  function PublicKeys(keys: seq<SecretKey>): set<string> {
    set i | 0 <= i < |keys| :: PublicHex(keys[i])
  }

  function Points(keys: seq<SecretKey>): set<Point> {
    set i | 0 <= i < |keys| :: keys[i].x
  }

  function CosignedBy(cp: Checkpoint, keys: seq<SecretKey>, now: int): seq<Cosignature> {
    seq(|keys|, i requires 0 <= i < |keys| => Cosign("", keys[i], cp.core, now))
  }

  /** Each of these witnesses is shown the checkpoint once, without a proof. */
  function Shown(cp: Checkpoint, keys: seq<SecretKey>, now: int): seq<Call> {
    seq(|keys|, i requires 0 <= i < |keys| => Call(keys[i].x, cp, None, now))
  }

  lemma PublicHexDiffers(a: SecretKey, b: SecretKey)
    requires a.x != b.x
    ensures PublicHex(a) != PublicHex(b)
  {
    hide PublicHex;
    PublicHexDecodes(a);
    PublicHexDecodes(b);
  }

  lemma NewKey(keys: seq<SecretKey>, last: SecretKey)
    requires forall i | 0 <= i < |keys| :: keys[i].x != last.x
    ensures PublicHex(last) !in PublicKeys(keys)
  {
    hide PublicHex;
    forall i | 0 <= i < |keys| ensures PublicHex(keys[i]) != PublicHex(last) {
      PublicHexDiffers(keys[i], last);
    }
  }

  lemma PublicKeysStep(keys: seq<SecretKey>)
    requires keys != []
    ensures PublicKeys(keys) == PublicKeys(keys[..|keys| - 1]) + {PublicHex(keys[|keys| - 1])}
  {
    hide PublicHex;
    var front := keys[..|keys| - 1];
    assert forall i | 0 <= i < |front| :: front[i] == keys[i];
    forall k ensures k in PublicKeys(keys) <==> k in PublicKeys(front) || k == PublicHex(keys[|keys| - 1]) {
    }
  }

  lemma InsertNew<T>(s: set<T>, x: T)
    requires x !in s
    ensures |s + {x}| == |s| + 1
  {
  }

  lemma DistinctFront(keys: seq<SecretKey>)
    requires DistinctKeys(keys) && keys != []
    ensures DistinctKeys(keys[..|keys| - 1])
    ensures var front := keys[..|keys| - 1]; forall i | 0 <= i < |front| :: front[i].x != keys[|keys| - 1].x
  {
  }

  lemma {:induction false} PublicKeysCount(keys: seq<SecretKey>)
    requires DistinctKeys(keys)
    ensures |PublicKeys(keys)| == |keys|
  {
    if keys == [] {
      assert PublicKeys(keys) == {};
    } else {
      hide *;
      var front, last := keys[..|keys| - 1], keys[|keys| - 1];
      DistinctFront(keys);
      PublicKeysCount(front);
      PublicKeysStep(keys);
      NewKey(front, last);
      InsertNew(PublicKeys(front), PublicHex(last));
    }
  }

  lemma CosignVouches(cp: Checkpoint, x: SecretKey, now: int)
    ensures Vouches(Cosign("", x, cp.core, now), cp) && Cosign("", x, cp.core, now).witnessPubkey == PublicHex(x)
  {
    hide PublicHex;
    PublicHexDecodes(x);
  }

  /** Every authorized signer of a list counts. */
  lemma CosignersCount(policy: Policy, cp: Checkpoint, keys: seq<SecretKey>, now: int)
    requires DistinctKeys(keys) && PublicKeys(keys) <= policy.authorizedPubkeys
    ensures |Vouchers(policy, cp, CosignedBy(cp, keys, now))| == |keys|
  {
    hide PublicHex, Vouches, DistinctKeys, Cosign;
    var cosignatures := CosignedBy(cp, keys, now);
    forall i | 0 <= i < |keys|
      ensures Vouches(cosignatures[i], cp) && cosignatures[i].witnessPubkey == PublicHex(keys[i])
    {
      CosignVouches(cp, keys[i], now);
    }
    assert forall i | 0 <= i < |keys| :: PublicHex(keys[i]) in PublicKeys(keys) && cosignatures[i] in cosignatures;
    assert Vouchers(policy, cp, cosignatures) == PublicKeys(keys);
    PublicKeysCount(keys);
  }

  /** No witness is shown two logs, two sizes or two roots. */
  ghost predicate OneHeadEach(run: seq<Call>) {
    forall i, j | 0 <= i < |run| && 0 <= j < |run| && run[i].signer == run[j].signer ::
      run[i].cp.core.logId == run[j].cp.core.logId && CheckpointHead(run[i].cp) == CheckpointHead(run[j].cp)
  }

  ghost predicate AllSigned(run: seq<Call>) {
    forall i | 0 <= i < |run| :: VerifyCheckpoint(run[i].cp) == Ok(true)
  }

  lemma PinOfHead(cp: Checkpoint)
    ensures HeadOf(PinOf(cp)) == CheckpointHead(cp)
  {
  }

  lemma SameHeadAccepted(state: State, cp: Checkpoint)
    requires VerifyCheckpoint(cp) == Ok(true)
    requires var pin := PinFor(state, cp.core.logId); pin.Some? ==> HeadOf(pin.value) == CheckpointHead(cp)
    ensures CheckAll(state, cp, None).Ok?
  {
    hide VerifyCheckpoint;
  }

  lemma {:induction false} OneHeadPinned(run: seq<Call>, n: nat, k: nat)
    requires n <= |run| && k < |run| && OneHeadEach(run)
    ensures var pin := PinAt(run, n, run[k].signer, run[k].cp.core.logId);
            pin.Some? ==> HeadOf(pin.value) == CheckpointHead(run[k].cp)
  {
    hide NextState, CheckAll, HeadOf, CheckpointHead, OneHeadEach;
    if n > 0 {
      OneHeadPinned(run, n - 1, k);
      var call := run[n - 1];
      if call.signer == run[k].signer {
        OneHeadAt(run, n - 1, k);
        PinAfterCall(StateOf(run, n - 1, call.signer), call.cp, call.proof, call.now, run[k].cp.core.logId);
        PinOfHead(call.cp);
      }
    }
  }

  lemma OneHeadAt(run: seq<Call>, i: nat, j: nat)
    requires i < |run| && j < |run| && OneHeadEach(run) && run[i].signer == run[j].signer
    ensures CheckpointHead(run[i].cp) == CheckpointHead(run[j].cp)
  {
  }

  /** Witnesses that are shown one head each accept every call, whatever else the checkpoints
      hold. */
  lemma AllSucceed(run: seq<Call>, k: nat)
    requires k < |run| && OneHeadEach(run) && AllSigned(run) && run[k].proof.None?
    ensures Succeeds(run, k)
  {
    hide OneHeadEach, StateOf, VerifyCheckpoint, CheckAll, HeadOf, CheckpointHead;
    OneHeadPinned(run, k, k);
    SameHeadAccepted(StateOf(run, k, run[k].signer), run[k].cp);
  }

  /** Cosignatures by honest witnesses that were shown the checkpoint, and by anybody else. */
  lemma ShownUnforged(run: seq<Call>, honest: set<Point>, cp: Checkpoint, keys: seq<SecretKey>, now: int)
    requires forall i | 0 <= i < |keys| && keys[i].x in honest ::
               exists k | 0 <= k < |run| :: run[k].signer == keys[i].x && run[k].cp == cp && Succeeds(run, k)
    ensures Unforged(run, honest, CosignedBy(cp, keys, now))
  {
    hide Succeeds, PublicHex;
    var cosignatures := CosignedBy(cp, keys, now);
    forall c | c in cosignatures && c.signature.Signed? && c.signature.signer in honest
      ensures exists k | 0 <= k < |run| :: CosignedAt(run, k, c)
    {
      var i :| 0 <= i < |keys| && c == cosignatures[i];
      var k :| 0 <= k < |run| && run[k].signer == keys[i].x && run[k].cp == cp && Succeeds(run, k);
      assert CosignedAt(run, k, c);
    }
  }

  lemma HonestShare(keys: seq<SecretKey>, f: nat, policy: Policy)
    requires DistinctKeys(keys) && f <= |keys| && policy.authorizedPubkeys == PublicKeys(keys)
    ensures |policy.authorizedPubkeys| == |keys| && |Dishonest(policy, Points(keys[f..]))| == f
  {
    hide PublicHex;
    PublicKeysCount(keys);
    forall i | 0 <= i < |keys|
      ensures SignerOf(PublicHex(keys[i])) == Some(keys[i].x) && (keys[i].x in Points(keys[f..]) <==> i >= f)
    {
      PublicHexDecodes(keys[i]);
      if i >= f {
        assert keys[f..][i - f] == keys[i];
      }
    }
    hide SignerOf, Points;
    assert forall i | 0 <= i < f :: keys[..f][i] == keys[i];
    assert Dishonest(policy, Points(keys[f..])) == PublicKeys(keys[..f]);
    PublicKeysCount(keys[..f]);
  }

  /** The keys that cosign in a split: the dishonest ones, as many as the threshold needs, and one
      of two disjoint groups of honest ones. */
  function Dishonests(f: nat, k: nat): nat {
    if f <= k then f else k
  }

  /** Where the honest group of one side begins. */
  function GroupStart(f: nat, k: nat, second: bool): nat {
    if second then f + (k - Dishonests(f, k)) else f
  }

  lemma GroupBounds(keys: seq<SecretKey>, f: nat, k: nat, second: bool)
    requires f <= |keys| && 2 * k <= |keys| + f
    ensures Dishonests(f, k) <= k && Dishonests(f, k) <= f <= GroupStart(f, k, second)
    ensures GroupStart(f, k, second) + (k - Dishonests(f, k)) <= |keys|
  {
  }

  function Group(keys: seq<SecretKey>, f: nat, k: nat, second: bool): seq<SecretKey>
    requires f <= |keys| && 2 * k <= |keys| + f
  {
    var start := GroupStart(f, k, second);
    keys[start..start + k - Dishonests(f, k)]
  }

  function Cosigners(keys: seq<SecretKey>, f: nat, k: nat, second: bool): seq<SecretKey>
    requires f <= |keys| && 2 * k <= |keys| + f
  {
    keys[..Dishonests(f, k)] + Group(keys, f, k, second)
  }

  lemma CosignersAt(keys: seq<SecretKey>, f: nat, k: nat, second: bool)
    requires f <= |keys| && 2 * k <= |keys| + f
    ensures var (b, chosen) := (Dishonests(f, k), Cosigners(keys, f, k, second));
            && b <= k == |chosen| && chosen[b..] == Group(keys, f, k, second)
            && forall i | 0 <= i < b :: chosen[i] == keys[i]
  {
    hide Dishonests, GroupStart;
    GroupBounds(keys, f, k, second);
  }

  lemma PickedKeys(keys: seq<SecretKey>, m: nat, lo: nat, hi: nat)
    requires DistinctKeys(keys) && m <= lo <= hi <= |keys|
    ensures DistinctKeys(keys[..m] + keys[lo..hi])
    ensures PublicKeys(keys[..m] + keys[lo..hi]) <= PublicKeys(keys)
  {
    hide PublicHex;
    var picked := keys[..m] + keys[lo..hi];
    assert forall i | 0 <= i < m :: picked[i] == keys[i];
    assert forall i | m <= i < |picked| :: picked[i] == keys[lo + i - m];
  }

  lemma CosignersFit(keys: seq<SecretKey>, f: nat, k: nat, second: bool)
    requires DistinctKeys(keys) && f <= |keys| && 2 * k <= |keys| + f
    ensures DistinctKeys(Cosigners(keys, f, k, second)) && |Cosigners(keys, f, k, second)| == k
    ensures PublicKeys(Cosigners(keys, f, k, second)) <= PublicKeys(keys)
  {
    hide DistinctKeys, PublicKeys, Dishonests, GroupStart;
    GroupBounds(keys, f, k, second);
    var start := GroupStart(f, k, second);
    PickedKeys(keys, Dishonests(f, k), start, start + k - Dishonests(f, k));
  }

  lemma ShownAt(cp: Checkpoint, keys: seq<SecretKey>, now: int)
    ensures |Shown(cp, keys, now)| == |keys|
    ensures forall i | 0 <= i < |keys| :: Shown(cp, keys, now)[i] == Call(keys[i].x, cp, None, now)
  {
  }

  /** Two lists of witnesses, each shown its checkpoint, accept all calls if no witness sees two
      heads. */
  lemma ShownSucceed(first: seq<SecretKey>, cp1: Checkpoint, second: seq<SecretKey>, cp2: Checkpoint, now: int)
    requires VerifyCheckpoint(cp1) == Ok(true) && VerifyCheckpoint(cp2) == Ok(true)
    requires (cp1.core.logId == cp2.core.logId && CheckpointHead(cp1) == CheckpointHead(cp2))
             || forall i, j | 0 <= i < |first| && 0 <= j < |second| :: first[i].x != second[j].x
    ensures var run := Shown(cp1, first, now) + Shown(cp2, second, now);
            forall k | 0 <= k < |run| :: Succeeds(run, k)
  {
    hide VerifyCheckpoint, Succeeds, CheckpointHead;
    ShownAt(cp1, first, now);
    ShownAt(cp2, second, now);
    hide Shown;
    var run := Shown(cp1, first, now) + Shown(cp2, second, now);
    assert forall k | 0 <= k < |run| :: run[k] == if k < |first| then Call(first[k].x, cp1, None, now)
                                                  else Call(second[k - |first|].x, cp2, None, now);
    assert OneHeadEach(run) && AllSigned(run);
    hide OneHeadEach, AllSigned;
    forall k | 0 <= k < |run| ensures Succeeds(run, k) {
      AllSucceed(run, k);
    }
  }

  /** Cosignatures by witnesses that were all shown the checkpoint, with any dishonest ones before
      them in the list. */
  lemma GroupUnforged(run: seq<Call>, honest: set<Point>, cp: Checkpoint, keys: seq<SecretKey>, b: nat, start: nat,
          now: int)
    requires b <= |keys| && start + |keys| - b <= |run|
    requires forall i | 0 <= i < b :: keys[i].x !in honest
    requires forall k | start <= k < start + |keys| - b ::
               run[k].signer == keys[b + k - start].x && run[k].cp == cp && Succeeds(run, k)
    ensures Unforged(run, honest, CosignedBy(cp, keys, now))
  {
    hide Succeeds, Unforged, CosignedBy;
    forall i | 0 <= i < |keys| && keys[i].x in honest
      ensures exists k | 0 <= k < |run| :: run[k].signer == keys[i].x && run[k].cp == cp && Succeeds(run, k)
    {
      var k := start + i - b;
      assert run[k].signer == keys[i].x;
    }
    ShownUnforged(run, honest, cp, keys, now);
  }

  lemma DishonestOutside(keys: seq<SecretKey>, f: nat, i: nat)
    requires DistinctKeys(keys) && i < f <= |keys|
    ensures keys[i].x !in Points(keys[f..])
  {
    assert forall j | 0 <= j < |keys| - f :: keys[f..][j] == keys[f + j];
  }

  lemma GroupsDisjoint(keys: seq<SecretKey>, lo: nat, mid: nat, hi: nat)
    requires DistinctKeys(keys) && lo <= mid <= hi <= |keys|
    ensures forall i, j | 0 <= i < mid - lo && 0 <= j < hi - mid :: keys[lo..mid][i].x != keys[mid..hi][j].x
  {
  }

  /** The two honest groups are each shown their checkpoint. */
  function SplitRun(keys: seq<SecretKey>, f: nat, k: nat, cp1: Checkpoint, cp2: Checkpoint, now: int): seq<Call>
    requires f <= |keys| && 2 * k <= |keys| + f
  {
    Shown(cp1, Group(keys, f, k, false), now) + Shown(cp2, Group(keys, f, k, true), now)
  }

  /** The honest group of one side is shown its checkpoint in the calls from `start` on. */
  ghost predicate GroupShown(run: seq<Call>, start: nat, group: seq<SecretKey>, cp: Checkpoint) {
    start + |group| <= |run|
    && forall i | start <= i < start + |group| ::
         Succeeds(run, i) && run[i].signer == group[i - start].x && run[i].cp == cp
  }

  lemma ShownGroups(first: seq<SecretKey>, cp1: Checkpoint, second: seq<SecretKey>, cp2: Checkpoint, now: int)
    requires VerifyCheckpoint(cp1) == Ok(true) && VerifyCheckpoint(cp2) == Ok(true)
    requires forall i, j | 0 <= i < |first| && 0 <= j < |second| :: first[i].x != second[j].x
    ensures var run := Shown(cp1, first, now) + Shown(cp2, second, now);
            GroupShown(run, 0, first, cp1) && GroupShown(run, |first|, second, cp2)
  {
    hide VerifyCheckpoint, Succeeds, Shown, CheckpointHead;
    ShownSucceed(first, cp1, second, cp2, now);
    ShownAt(cp1, first, now);
    ShownAt(cp2, second, now);
    var run1, run2 := Shown(cp1, first, now), Shown(cp2, second, now);
    var run := run1 + run2;
    assert forall i | 0 <= i < |first| :: run[i] == run1[i];
    assert forall i | |first| <= i < |first| + |second| :: run[i] == run2[i - |first|];
  }

  lemma GroupsApart(keys: seq<SecretKey>, f: nat, k: nat)
    requires DistinctKeys(keys) && f <= |keys| && 2 * k <= |keys| + f
    ensures var first, second := Group(keys, f, k, false), Group(keys, f, k, true);
            && |first| == |second| == k - Dishonests(f, k)
            && forall i, j | 0 <= i < |first| && 0 <= j < |second| :: first[i].x != second[j].x
  {
    hide DistinctKeys;
    var size := k - Dishonests(f, k);
    GroupsDisjoint(keys, f, f + size, f + 2 * size);
  }

  lemma DishonestFront(keys: seq<SecretKey>, f: nat, k: nat, second: bool)
    requires DistinctKeys(keys) && f <= |keys| && 2 * k <= |keys| + f
    ensures var (b, chosen) := (Dishonests(f, k), Cosigners(keys, f, k, second));
            b <= k == |chosen| && forall i | 0 <= i < b :: chosen[i].x !in Points(keys[f..])
  {
    hide Points, DistinctKeys, Cosigners;
    CosignersAt(keys, f, k, second);
    forall i | 0 <= i < Dishonests(f, k) ensures Cosigners(keys, f, k, second)[i].x !in Points(keys[f..]) {
      DishonestOutside(keys, f, i);
    }
  }

  lemma SideUnforged(keys: seq<SecretKey>, f: nat, k: nat, second: bool, run: seq<Call>, start: nat, cp: Checkpoint,
          now: int)
    requires DistinctKeys(keys) && f <= |keys| && 2 * k <= |keys| + f
    requires GroupShown(run, start, Group(keys, f, k, second), cp)
    ensures Unforged(run, Points(keys[f..]), CosignedBy(cp, Cosigners(keys, f, k, second), now))
  {
    hide Succeeds, Unforged, CosignedBy, Points, DistinctKeys, Cosigners, Group, Dishonests;
    DishonestFront(keys, f, k, second);
    CosignersAt(keys, f, k, second);
    GroupUnforged(run, Points(keys[f..]), cp, Cosigners(keys, f, k, second), Dishonests(f, k), start, now);
  }

  lemma SplitParts(keys: seq<SecretKey>, f: nat, k: nat, cp1: Checkpoint, cp2: Checkpoint, now: int)
    requires f <= |keys| && 2 * k <= |keys| + f
    ensures SplitRun(keys, f, k, cp1, cp2, now)
         == Shown(cp1, Group(keys, f, k, false), now) + Shown(cp2, Group(keys, f, k, true), now)
  {
  }

  lemma SplitUnforged(keys: seq<SecretKey>, f: nat, k: nat, cp1: Checkpoint, cp2: Checkpoint, now: int)
    requires DistinctKeys(keys) && f <= |keys| && 2 * k <= |keys| + f
    requires VerifyCheckpoint(cp1) == Ok(true) && VerifyCheckpoint(cp2) == Ok(true)
    ensures var run, honest := SplitRun(keys, f, k, cp1, cp2, now), Points(keys[f..]);
            && Unforged(run, honest, CosignedBy(cp1, Cosigners(keys, f, k, false), now))
            && Unforged(run, honest, CosignedBy(cp2, Cosigners(keys, f, k, true), now))
  {
    hide *;
    var run := SplitRun(keys, f, k, cp1, cp2, now);
    var first, second := Group(keys, f, k, false), Group(keys, f, k, true);
    GroupsApart(keys, f, k);
    ShownGroups(first, cp1, second, cp2, now);
    SplitParts(keys, f, k, cp1, cp2, now);
    SideUnforged(keys, f, k, false, run, 0, cp1, now);
    SideUnforged(keys, f, k, true, run, |first|, cp2, now);
  }

  /** The bound is tight for every policy: N distinct keys, f of them dishonest, threshold K and
      2K <= N + f. Two disjoint groups of honest witnesses are each shown one of any two signed
      checkpoints; with the dishonest cosignatures both reach the quorum. */
  lemma {:induction false} BoundIsTight(keys: seq<SecretKey>, f: nat, k: Byte, cp1: Checkpoint, cp2: Checkpoint,
          now: int)
    returns (run: seq<Call>, cosigs1: seq<Cosignature>, cosigs2: seq<Cosignature>)
    requires DistinctKeys(keys) && f <= |keys| && 2 * k <= |keys| + f
    requires VerifyCheckpoint(cp1) == Ok(true) && VerifyCheckpoint(cp2) == Ok(true)
    ensures var policy, honest := Policy(k, PublicKeys(keys)), Points(keys[f..]);
            && |policy.authorizedPubkeys| == |keys| && |Dishonest(policy, honest)| == f
            && Unforged(run, honest, cosigs1) && Unforged(run, honest, cosigs2)
            && |Vouchers(policy, cp1, cosigs1)| >= policy.requiredQuorum
            && |Vouchers(policy, cp2, cosigs2)| >= policy.requiredQuorum
  {
    hide *;
    var policy, honest := Policy(k, PublicKeys(keys)), Points(keys[f..]);
    HonestShare(keys, f, policy);
    CosignersFit(keys, f, k, false);
    CosignersFit(keys, f, k, true);
    var list1, list2 := Cosigners(keys, f, k, false), Cosigners(keys, f, k, true);
    CosignersCount(policy, cp1, list1, now);
    CosignersCount(policy, cp2, list2, now);
    cosigs1, cosigs2 := CosignedBy(cp1, list1, now), CosignedBy(cp2, list2, now);
    run := SplitRun(keys, f, k, cp1, cp2, now);
    SplitUnforged(keys, f, k, cp1, cp2, now);
  }

  /** Witnesses compare log, size and root only: with no dishonest key at all, two checkpoints that
      agree in these and differ in anything else, such as the map root, both reach every quorum. */
  lemma {:induction false} MapRootsNotCompared(keys: seq<SecretKey>, k: Byte, cp1: Checkpoint, cp2: Checkpoint,
          now: int)
    returns (run: seq<Call>)
    requires DistinctKeys(keys) && k <= |keys|
    requires VerifyCheckpoint(cp1) == Ok(true) && VerifyCheckpoint(cp2) == Ok(true)
    requires cp1.core.logId == cp2.core.logId && CheckpointHead(cp1) == CheckpointHead(cp2)
    ensures var policy, honest := Policy(k, PublicKeys(keys)), Points(keys);
            && Dishonest(policy, honest) == {}
            && Unforged(run, honest, CosignedBy(cp1, keys, now)) && Unforged(run, honest, CosignedBy(cp2, keys, now))
            && |Vouchers(policy, cp1, CosignedBy(cp1, keys, now))| >= policy.requiredQuorum
            && |Vouchers(policy, cp2, CosignedBy(cp2, keys, now))| >= policy.requiredQuorum
  {
    hide *;
    var policy, honest := Policy(k, PublicKeys(keys)), Points(keys);
    HonestShare(keys, 0, policy);
    assert keys[0..] == keys;
    assert Dishonest(policy, honest) == {};
    CosignersCount(policy, cp1, keys, now);
    CosignersCount(policy, cp2, keys, now);
    run := Shown(cp1, keys, now) + Shown(cp2, keys, now);
    ShownSucceed(keys, cp1, keys, cp2, now);
    ShownAt(cp1, keys, now);
    ShownAt(cp2, keys, now);
    GroupUnforged(run, honest, cp1, keys, 0, 0, now);
    GroupUnforged(run, honest, cp2, keys, 0, |keys|, now);
  }

  // ---------------------------------------------------------------------------------------
  // The operator's key
  // ---------------------------------------------------------------------------------------

  /** The checkpoint under another key and signed with it. */
  function Resigned(cp: Checkpoint, secret: SecretKey): Checkpoint {
    var core := cp.core.(operatorPubkey := PublicHex(secret));
    Checkpoint(core, cp.anchor, Sign(CheckpointMessage(core, cp.anchor), secret))
  }

  lemma ResignedVerifies(cp: Checkpoint, secret: SecretKey)
    ensures VerifyCheckpoint(Resigned(cp, secret)) == Ok(FieldsFit(cp.core))
  {
    hide SignerOf, PublicHex;
    PublicHexDecodes(secret);
    assert |PublicHex(secret)| == 66;
  }

  lemma VerifiedFits(cp: Checkpoint)
    requires VerifyCheckpoint(cp) == Ok(true)
    ensures FieldsFit(cp.core)
  {
  }

  /** A checkpoint is checked against the key that it names itself, never against the key of the
      log's pin: what a witness accepts, it also accepts signed by anybody else, and for a log
      without a pin it accepts any size and root from anybody. */
  lemma OperatorNotPinned(state: State, cp: Checkpoint, secret: SecretKey, proof: Option<ConsistencyProofMessage>)
    ensures CheckAll(state, Resigned(cp, secret), proof)
            == if FieldsFit(cp.core) then CheckPin(PinFor(state, cp.core.logId), cp.core, proof)
               else Err(InvalidSignature)
    ensures CheckAll(state, cp, proof).Ok? ==> CheckAll(state, Resigned(cp, secret), proof).Ok?
    ensures FieldsFit(cp.core) && cp.core.logId !in state.pins ==> CheckAll(state, Resigned(cp, secret), proof).Ok?
  {
    hide VerifyCheckpoint, ConsistencyVerdict;
    ResignedVerifies(cp, secret);
    if VerifyCheckpoint(cp) == Ok(true) {
      VerifiedFits(cp);
    }
  }
}
