# SatsPath protocol model

A Dafny model of the protocol core of SatsPath: the transparency log and its witnesses, the
identity registry and key rotation, the fee consensus, the BOLT12 wire format, silent payments,
DNS payment records, invites and route scoring. To verify the project, use
`dafny verify dfyconfig.toml`.

Code that changes state step by step is modelled by classes, methods and loops that are proved
against specification functions; the properties of the protocol are lemmas about those functions,
over all inputs and over all sequences of calls.

## Layout

| files | what they model |
|---|---|
| `Prelude`, `Text`, `Hex`, `Utf8`, `Crypto` | shared types, line-structured text, hex text, UTF-8, symbolic Schnorr signatures |
| `Merkle`, `Inclusion`, `StateMap` | the RFC 6962 log tree with consistency and inclusion proofs, and the sparse Merkle map |
| `Witness`, `WitnessRuns` | one checkpoint witness and the K-of-N policy; runs of many witnesses |
| `NameHistory` | event histories of one identifier |
| `Rotation`, `Registry`, `RegistryHistory` | key-rotation proofs, the profile registry, histories of register and update calls |
| `Fees` | median consensus, tier repair, decaying cache |
| `Tlv`, `Bolt12` | BigSize numbers, TLV streams, truncated integers, blinded paths, offer identifiers, invoice requests |
| `SilentPayments`, `SilentPaymentAgreement`, `SilentPaymentKeys` | BIP-352 output creation, scanning, spending keys; what both sides agree on; the keys in numbers |
| `DnsPublish`, `DnsResolve` | splitting a URI into TXT strings, publishing plans, quoted strings, resolution |
| `Invites`, `InviteRuns` | the invite store; runs of calls on it |
| `Scoring` | route candidates, scores and the decision |

Cryptography is symbolic. A hash is the term that was hashed, a signature is the pair of its
signer and the message, a point of the curve is its exponent modulo the group order, and tagged
hashes are arbitrary functions. The clock, generated identifiers, the outcome of saving a file,
answers from the network and text screens are parameters.

## Where the code and its promises part

Each of these is a lemma with the exact condition or a concrete input.

- A witness compares roots as text, so the same root in other capitals counts as an equivocation
  (`WitnessRuns.AlarmIsRealExact`), and an inclusion proof is accepted only if it spells the root
  in lower case (`Inclusion.InclusionProofExact`).
- Witnesses do not compare map roots (`WitnessRuns.MapRootsNotCompared`), and they check a
  checkpoint only against the key that it names itself, so anybody may sign the first checkpoint
  of a log that has no pin, or sign an accepted one anew (`WitnessRuns.OperatorNotPinned`).
- The state map commits to an event hash only up to its spelling (`StateMap.SameLeafExact`,
  `StateMap.SpellingIsNotCommitted`), and its proofs too must spell the root in lower case
  (`StateMap.MessageExact`).
- The sum of two middle fees may overflow (`Fees.WrapExact`).
- At the largest sequence number the standalone rotation check accepts what the registry refuses
  (`RegistryHistory.ChecksDisagreeAtMaximum`).
- An alias spelled like another alias's hash finds the entry of that alias, as long as it has none
  of its own (`RegistryHistory.HashAliasFinds`).
- A rotation message has one reading only if none of its fields holds a newline
  (`Rotation.MessageUniqueExact`), and an identifier of two lines lets one authorization serve two
  rotations (`Rotation.AuthorizationReused`, `Rotation.AuthorizationExact`).
- Detection of silent payments without an input hash agrees with the sender, for every hash
  function, only if the sender had no outpoint to hash
  (`SilentPaymentAgreement.DetectWithoutHashExact`); outputs created without any input key are
  never found (`SilentPaymentAgreement.PaymentsFoundExact`); and whether an output can be created
  may depend on the order of the inputs (`SilentPaymentAgreement.InputOrderExact`,
  `SilentPaymentAgreement.OutputDependsOnOrder`).
- TXT data with decimal escapes (RFC 1035 section 5.1) is misread (`DnsResolve.ExtractExact`), which
  is exactly data with a backslash before a digit in a quoted string
  (`DnsResolve.NoDigitEscapeExact`), and a payload within the size limit of eight strings may need
  nine (`DnsPublish.NineStrings`, with the condition in `DnsPublish.PlanExact`).
- A claimed invite can be cancelled once somebody tried to claim it after its time
  (`InviteRuns.CancelExact`), and a clock that runs backwards allows a second claim
  (`InviteRuns.ClockBackwards`, with the condition in `InviteRuns.SecondNotificationExact`).
- A fee or a time of 2^63 or more counts as a bonus (`Scoring.FeeOrderExact`,
  `Scoring.TimeOrderExact`).

## Model

| member | source | states |
|---|---|---|
| `Hex.DecodeEncode` | crates/satspath-core/src/transparency/verifier.rs:11-16 | hex text written from bytes is lower case and decodes to those bytes |
| `Hex.EncodeDecode` | crates/satspath-core/src/transparency/verifier.rs:11-16 | lower-case hex text decodes, and encoding the result gives the text back |
| `Hex.DigitExact` | crates/satspath-core/src/transparency/verifier.rs:11-16 | the characters with a value are its digit in either case, and no others |
| `Merkle.RootByLevels` | crates/satspath-core/src/transparency/tree.rs:20-32 | the recursive tree is the one built row by row, an odd last entry moving up unchanged |
| `Merkle.RootInjective` | crates/satspath-core/src/transparency/tree.rs:20-32 | two logs of one length with one root are the same log |
| `Inclusion.BelowIsPow2` | crates/satspath-core/src/transparency/tree.rs:66-74 | the split point is a power of two |
| `Merkle.LargestPow2Below` | crates/satspath-core/src/transparency/tree.rs:66-74 | the split point lies below the size and at least at its half |
| `Merkle.InclusionPathByLevels` | crates/satspath-core/src/transparency/tree.rs:52-64 | an inclusion path is the sibling on the leaf row followed by the path one row up |
| `Merkle.SubProofOdd` | crates/satspath-core/src/transparency/tree.rs:92-108 | for an odd old size a consistency proof is the last old leaf, if needed, and its inclusion path |
| `Merkle.SubProofEven` | crates/satspath-core/src/transparency/tree.rs:92-108 | for an even old size it is the proof of the halved sizes one row up |
| `Merkle.VerifyConsistency` | crates/satspath-core/src/transparency/tree.rs:110-172 | the loops compute the strip-and-climb decision, refusing old sizes of zero or beyond the new one |
| `Merkle.ConsistencyExact` | crates/satspath-core/src/transparency/tree.rs:76-172 | for the true new root exactly the root of the old prefix with the generated proof is accepted: complete, sound, unique |
| `Merkle.VerifyConsistencyProof` | crates/satspath-core/src/transparency/verifier.rs:42-79 | both proof versions, the size and length limits, and undecodable hashes as errors |
| `Merkle.ConsistencyProofExact` | crates/satspath-core/src/transparency/verifier.rs:42-79 | against the root of a log a message of either version is accepted exactly for the root of the log's beginning with the generated path, or with all leaves of a small log in version 1 |
| `Merkle.HonestProofAccepted` | crates/satspath-core/src/transparency/log.rs:294-308 | every proof that a log serves for two of its sizes is accepted |
| `Merkle.AcceptedProofIsPrefix` | crates/satspath-core/src/transparency/verifier.rs:42-79 | an accepted proof forces the old root to be the root of a prefix of any log with the new root |
| `Merkle.LogsExtend` | crates/satspath-core/src/transparency/verifier.rs:42-79 | the logs behind an accepted proof extend one another |
| `Inclusion.VerifyInclusionProof` | crates/satspath-core/src/transparency/verifier.rs:18-40 | the nested loops compute the folded root and the remaining width, with the error cases |
| `Inclusion.InclusionExact` | crates/satspath-core/src/transparency/verifier.rs:18-40 | against the true root exactly the leaf at the index with the generated path is accepted, whatever digest is claimed as a leaf and although the path length is not checked |
| `Inclusion.InclusionProofExact` | crates/satspath-core/src/transparency/verifier.rs:18-40 | the same on the wire, for any claimed digest: any spelling of path and leaf, only the lower-case spelling of the root |
| `Inclusion.HonestLength` | crates/satspath-core/src/transparency/tree.rs:34-64 | how long a generated path is |
| `StateMap.VerifyProof` | crates/satspath-core/src/transparency/state_map.rs:88-122 | the loop hashes from the leaf up along the bits of the key; undecodable key or path text and any other spelling of the root are refused |
| `StateMap.SubtreeExact` | crates/satspath-core/src/transparency/state_map.rs:200-261 | at every depth a path leads to the subtree's hash exactly when the claim about the key holds and the path is the generated one |
| `StateMap.ProofExact` | crates/satspath-core/src/transparency/state_map.rs:88-122 | inclusion and non-inclusion proofs are accepted exactly when they state what the map holds |
| `StateMap.MessageExact` | crates/satspath-core/src/transparency/state_map.rs:88-122 | the same on the wire: any spelling of key and path, only the lower-case spelling of the root |
| `StateMap.RootDeterminesMap` | crates/satspath-core/src/transparency/state_map.rs:164-169 | equal roots mean equal maps, up to what a leaf commits to |
| `StateMap.SameLeafIsEqual` | crates/satspath-core/src/transparency/state_map.rs:55-71 | lower-case event hashes are committed to exactly |
| `StateMap.SameLeafExact` | crates/satspath-core/src/transparency/state_map.rs:55-71 | for all event hashes: hex is committed to up to case, other text exactly, and other text is confused with the hex of its own bytes |
| `StateMap.SpellingIsNotCommitted` | crates/satspath-core/src/transparency/state_map.rs:55-71 | an input for each of the two confusions |
| `StateMap.InsertedLookup` | crates/satspath-core/src/transparency/state_map.rs:136-138 | an insertion into the ordered map changes the lookup of its own key only |
| `StateMap.SparseMerkleTree.Insert` | crates/satspath-core/src/transparency/state_map.rs:136-138 | sets one key, keeps all others and the order |
| `StateMap.SparseMerkleTree.Prove` | crates/satspath-core/src/transparency/state_map.rs:176-191 | the proof of a key carries its current value and is accepted by the tree's own root |
| `Witness.CosignTextInjective` | crates/satspath-core/src/transparency/protocol.rs:34-43 | the signed text determines witness, checkpoint hash, size and time |
| `WitnessRuns.PinAfterCall` | crates/satspath-witness/src/lib.rs:297-362 | what a witness reads after a call: the checkpoint's pin for its log if the call succeeded, every other pin as before |
| `Witness.MemoryPinStore.SavePin` | crates/satspath-witness/src/lib.rs:102-106 | replaces the pin of one log and no other |
| `Witness.MemoryPinStore.RecordEquivocation` | crates/satspath-witness/src/lib.rs:108-125 | appends one record for the log |
| `Witness.WitnessService.ProcessCheckpoint` | crates/satspath-witness/src/lib.rs:285-388 | result and new store of every call: signature, rollback, equivocation and consistency checks, pin, cosignature |
| `Witness.CheckpointExact` | crates/satspath-core/src/transparency/verifier.rs:81-100 | a checkpoint passes exactly when its fields fit and the key it names signed exactly these fields and this receipt |
| `WitnessRuns.VerdictExact` | crates/satspath-witness/src/lib.rs:285-352 | which call has which outcome: an unsigned checkpoint, a rollback, an equivocation, and success exactly without a pin, at the pinned head or one verified proof ahead of it |
| `WitnessRuns.EvidenceIsSigned` | crates/satspath-witness/src/lib.rs:291-362 | in every run every pin and both sides of every record are signed by the key that their checkpoint names, over a checkpoint of that log, size, root and time |
| `WitnessRuns.CosignedIsGenuine` | crates/satspath-witness/src/lib.rs:291-388 | every cosigned checkpoint is signed by the key that it names |
| `WitnessRuns.HonestOperatorsCosigned` | crates/satspath-witness/src/lib.rs:285-388 | in every run in which operators show beginnings of one log each, not shorter than the pin and with the log's own proof, every call succeeds |
| `Witness.CosignExact` | crates/satspath-witness/src/lib.rs:364-388 | what a witness sends vouches for the checkpoint under its own key, name and time |
| `Witness.VouchesExact` | crates/satspath-witness/src/lib.rs:423-438 | a cosignature counts exactly when it shows this hash and size and its key signed them |
| `Witness.VerifyQuorum` | crates/satspath-witness/src/lib.rs:409-446 | counts every authorized key with a vouching cosignature once and compares with the threshold |
| `WitnessRuns.ReachesPrefix` | crates/satspath-witness/src/lib.rs:333-352 | a head reached by verified proofs has every earlier head as the root of a prefix of its log |
| `WitnessRuns.PinsMoveForward` | crates/satspath-witness/src/lib.rs:297-362 | in every run pins stay, sizes never decrease, one size has one root, and later pins are reached from earlier ones by verified proofs |
| `WitnessRuns.CosignedInOrder` | crates/satspath-witness/src/lib.rs:285-388 | of two checkpoints that a witness cosigned the later is reached from the earlier |
| `WitnessRuns.OneRootPerSize` | crates/satspath-witness/src/lib.rs:309-330 | a witness never cosigns two roots of one log at one size |
| `WitnessRuns.RefusalKeepsPins` | crates/satspath-witness/src/lib.rs:300-352 | a refused call changes no pin and leaves a record exactly on equivocation, with the pin of that moment |
| `WitnessRuns.RecordsAreEvidence` | crates/satspath-witness/src/lib.rs:309-330 | in every run every record holds two different root texts of one log and size |
| `WitnessRuns.AlarmIsRealExact` | crates/satspath-witness/src/lib.rs:309-330 | whatever logs are behind pin and checkpoint of a recorded equivocation, they differ exactly when the two texts decode to different digests |
| `WitnessRuns.NoSplitView` | crates/satspath-witness/src/lib.rs:285-446 | if 2K > N + f, any two checkpoints of one log that reach the quorum in any interleaving lie on one chain, and equal sizes have equal roots |
| `WitnessRuns.NoSplitLog` | crates/satspath-witness/src/lib.rs:285-446 | and the logs behind them are prefixes of one another |
| `WitnessRuns.BoundIsTight` | crates/satspath-witness/src/lib.rs:409-446 | for any N distinct keys, f of them dishonest, and any K with 2K <= N + f there is a run in which any two signed checkpoints both reach the quorum |
| `WitnessRuns.OperatorNotPinned` | crates/satspath-witness/src/lib.rs:285-298 | a checkpoint with well-formed fields signed anew by any key passes the signature check, so it is accepted wherever the original is, and always for a log without a pin |
| `WitnessRuns.MapRootsNotCompared` | crates/satspath-witness/src/lib.rs:300-330 | without any dishonest key two checkpoints that agree in log, size and root and differ in the map root both reach every quorum |
| `WitnessRuns.QuorumsMeet` | crates/satspath-witness/src/lib.rs:409-446 | two large enough quorums share a key outside a small set |
| `NameHistory.VerifyIdentifierHistory` | crates/satspath-core/src/transparency/verifier.rs:192-261 | the loop computes the replay of the history, with its first error |
| `NameHistory.HistoryExact` | crates/satspath-core/src/transparency/verifier.rs:192-261 | a history is verified exactly when it opens with a registration signed by its own key and every later event continues its predecessor: signed by the key in force, and either a proven key change or any action but recovery under the same key |
| `NameHistory.TransitionExact` | crates/satspath-core/src/transparency/verifier.rs:268-358 | the check of one event accepts exactly what continues the head |
| `NameHistory.TransitionRefinesReplay` | crates/satspath-core/src/transparency/verifier.rs:268-358 | checking one event against the head of a verified history is the same as replaying the whole history with it |
| `NameHistory.HistoryGuarantees` | crates/satspath-core/src/transparency/verifier.rs:192-261 | every event is signed by the key in force, names its predecessor, changes the key only with both keys' proof, and follows no revocation |
| `NameHistory.PrefixVerified` | crates/satspath-core/src/transparency/verifier.rs:192-261 | every beginning of a verified history is verified |
| `NameHistory.HeadDeterminesHistory` | crates/satspath-core/src/transparency/verifier.rs:192-261 | the hash of the newest event commits to the whole history |
| `Crypto.PublicHexDecodes` | crates/satspath-core/src/crypto.rs:206-234 | the hex of a key pair's public key is a compressed key and names its signer |
| `Crypto.VerifyMessageExact` | crates/satspath-core/src/crypto.rs:206-236 | a signature check says yes exactly for a signature over the message by the key that the text names, in x-only, compressed or 65-byte form; its two errors are a key text that names none and a signature that cannot be read |
| `Rotation.MessageInjective` | crates/satspath-core/src/rotation.rs:122-134 | the signed text determines all seven fields, even with newlines in the previous event hash |
| `Rotation.MessageUniqueExact` | crates/satspath-core/src/rotation.rs:122-134 | under a one-line domain a message has one reading exactly when identifier, both keys and previous event hash are single lines |
| `Rotation.AuthorizationIsNotAcceptance` | crates/satspath-core/src/rotation.rs:122-134 | authorization and acceptance messages never coincide |
| `Rotation.VerifyExact` | crates/satspath-core/src/rotation.rs:83-119 | a proof verifies exactly when it is well formed and both keys signed it |
| `Rotation.ProvenExact` | crates/satspath-core/src/rotation.rs:83-120 | the same with the signers named by the key texts and the seven signed fields of each message |
| `Rotation.AuthorizationDeterminesRotation` | crates/satspath-core/src/rotation.rs:83-119 | one authorization signature proves one rotation, for one-line identifiers |
| `Rotation.AuthorizationExact` | crates/satspath-core/src/rotation.rs:83-119 | two verified proofs with one authorization are one rotation exactly when their identifiers have equally many newlines |
| `Rotation.AuthorizationReused` | crates/satspath-core/src/rotation.rs:83-119 | two verified rotations to different keys under one authorization, the identifier of one having two lines |
| `RegistryHistory.CreatedVerifies` | crates/satspath-core/src/rotation.rs:41-80 | a rotation made with both secret keys verifies unless identifier, event hash or sequence is missing |
| `Registry.Store.RegisterProfileFor` | crates/satspath-core/src/registry.rs:83-96 | verdict and new map of every call, including a failed save |
| `Registry.Store.UpdateProfileFor` | crates/satspath-core/src/registry.rs:104-175 | verdict and new map of every call: key continuity, timestamp and sequence rules in their order |
| `Registry.WriteExact` | crates/satspath-core/src/registry.rs:52-75 | a write is valid exactly for the canonical ASCII alias, a compressed key, no lapsed expiry, clean text, and signatures of the profile's own keys over exactly this profile |
| `Registry.SelfSignedExact` | crates/satspath-core/src/crypto.rs:93-146 | a signed profile verifies exactly when its identity key, not x-only, and its hybrid key where demanded or present, signed exactly this profile |
| `Registry.RegisterExact` | crates/satspath-core/src/registry.rs:83-96 | a registration is accepted exactly for a valid write of an alias that has no entry under either key |
| `Registry.UpdateExact` | crates/satspath-core/src/registry.rs:104-175 | an update is accepted exactly for a valid write that may replace the entry: not older, a larger sequence once one is set, and either the same key without a rotation or a proven change to the new key at the next sequence |
| `RegistryHistory.EntriesAreSigned` | crates/satspath-core/src/registry.rs:83-175 | whatever entry is found after a history was found before it or written in it, signed by its own key over exactly that profile |
| `Registry.Store.ResolveAlias` | crates/satspath-core/src/registry.rs:177-195 | hashed entry first, then the legacy one; revoked and missing aliases are errors |
| `RegistryHistory.HashAliasFinds` | crates/satspath-core/src/registry.rs:83-195 | an alias spelled like another alias's hash finds the entry stored for that alias exactly when no other entry of its own is stored |
| `RegistryHistory.StoredElsewhere` | crates/satspath-core/src/registry.rs:83-175 | storing an entry changes what its own alias finds and, for want of an own entry, what an alias spelled like its hash finds, and nothing else |
| `RegistryHistory.CanonicalIdempotent` | crates/satspath-core/src/privacy.rs:26-31 | canonical identifiers are their own canonical form |
| `RegistryHistory.CanonicalExact` | crates/satspath-core/src/privacy.rs:26-31 | the canonical form is what is left without the white space at both ends, with A to Z in lower case and nothing else changed |
| `Registry.SpacesExact` | crates/satspath-core/src/privacy.rs:26-31 | what is cut off are the 25 characters of the Unicode property White_Space |
| `RegistryHistory.StepEvolves` | crates/satspath-core/src/registry.rs:83-175 | every call, accepted or not, replaces an entry only with a non-older timestamp, a larger sequence once one is set, and a doubly signed key change, by the rules of the alias that was written |
| `RegistryHistory.StepExact` | crates/satspath-core/src/registry.rs:83-175 | what may be registered or updated is stored and then found under its alias, and any other call changes nothing |
| `RegistryHistory.HistoryGrows` | crates/satspath-core/src/registry.rs:104-175 | over every history timestamps never go back, sequences are never dropped, and they grow at least by the number of key changes |
| `RegistryHistory.KeyChangesBounded` | crates/satspath-core/src/registry.rs:104-175 | from any loaded registry an alias never changed hands more often than its sequence number counts |
| `RegistryHistory.MoveIsDulySigned` | crates/satspath-core/src/registry.rs:121-144 | each key change in a history is signed by the old and the new key at exactly the next sequence, for the alias looked up or the one whose hash that is |
| `RegistryHistory.OwnerMoves` | crates/satspath-core/src/registry.rs:104-175 | a key change of any alias is a key change of the alias that was written, with the same entries |
| `RegistryHistory.ProofNotReusable` | crates/satspath-core/src/registry.rs:121-144 | no authorization signature drives two key changes, of one alias or of two |
| `RegistryHistory.RotationChecksAgree` | crates/satspath-core/src/rotation.rs:244-267 | for a real key change the registry accepts exactly what the standalone check accepts, given a valid write, a non-older timestamp and room for the sequence |
| `RegistryHistory.KeyRotationExact` | crates/satspath-core/src/rotation.rs:244-267 | the standalone check accepts exactly a proven change between the two keys for the old alias at the saturated next sequence, in a profile signed by its new key |
| `RegistryHistory.ChecksDisagreeAtMaximum` | crates/satspath-core/src/rotation.rs:244-267 | at the largest sequence the two checks differ |
| `RegistryHistory.RotatedIsAccepted` | crates/satspath-core/src/rotation.rs:195-241 | the rotated profile signed by the new key is accepted exactly under six named conditions |
| `Fees.FeeEstimate.Sanitize` | crates/satspath-router/src/fees.rs:97-103 | updates the five fields to the repaired estimate |
| `Fees.SanitizedIsLeast` | crates/satspath-router/src/fees.rs:97-103 | the repair is the least tier-ordered estimate nowhere below its input |
| `Fees.MedianColumn` | crates/satspath-router/src/fees.rs:325-336 | collecting, sorting and picking gives the median of one tier, the 64-bit sum of two middle values halved and rounded up |
| `Fees.WrapExact` | crates/satspath-router/src/fees.rs:331-335 | that is the true median exactly when the middle sum fits 64 bits |
| `Fees.SortRank` | crates/satspath-router/src/fees.rs:325-336 | the value at rank k is at most y exactly when more than k values are |
| `Fees.MedianExact` | crates/satspath-router/src/fees.rs:323-334 | the median is half the sum of the values at the two middle ranks, rounded up |
| `Fees.ConsensusExact` | crates/satspath-router/src/fees.rs:313-353 | every tier of the consensus of ordered estimates is that of the two middle ranks of the tier |
| `Fees.ComputeMedianFee` | crates/satspath-router/src/fees.rs:315-353 | none for no source, else the repaired tier medians, for all values |
| `Fees.ConsensusIsMedian` | crates/satspath-router/src/fees.rs:315-353 | without an overflowing sum the computed consensus is that of the true medians |
| `Fees.MedianMonotone` | crates/satspath-router/src/fees.rs:325-336 | a pointwise larger column has no smaller median |
| `Fees.MedianKeepsOrder` | crates/satspath-router/src/fees.rs:315-353 | medians of tier-ordered estimates are tier-ordered, so the final repair changes nothing |
| `Fees.ConsensusInHonestRange` | crates/satspath-router/src/fees.rs:313-353 | with fewer than half of the sources dishonest every tier lies between the smallest and largest honest value |
| `Fees.ComputedInHonestRange` | crates/satspath-router/src/fees.rs:313-353 | a dishonest minority cannot make a sum overflow while honest values stay below half of the range, and the computed consensus lies in the honest range |
| `Fees.HalfDishonestIsTooMany` | crates/satspath-router/src/fees.rs:313-353 | whatever the honest estimates, as many dishonest ones can push a tier above every honest value; when the honest values stay below 2^63 they fit 64 bits, no sum overflows and the computed consensus is pushed too |
| `Fees.ArrivalOrderIrrelevant` | crates/satspath-router/src/fees.rs:315-353 | the consensus does not depend on the order of arrival |
| `Fees.DecayMovesToFallback` | crates/satspath-router/src/fees.rs:355-380 | a decayed tier lies between cached and fallback value, moves only towards the fallback and reaches it at the limit |
| `Fees.DecayNearest` | crates/satspath-router/src/fees.rs:357-381 | a decayed value is the whole number nearest to the mean weighted by remaining and elapsed time, halves going up, and at least 1 |
| `Fees.DecayKeepsOrder` | crates/satspath-router/src/fees.rs:355-380 | tier order survives decay and rounding |
| `Fees.FeeEngine.FetchConsensusFee` | crates/satspath-router/src/fees.rs:582-674 | report and new cache of every fetch: fresh consensus, decayed cache or fallback |
| `Fees.ReportsNeedNoRepair` | crates/satspath-router/src/fees.rs:582-674 | in every run of sanitized sources without overflowing sums every report is tier-ordered before any repair |
| `Fees.CacheHasOrigin` | crates/satspath-router/src/fees.rs:603-645 | the cache always holds the latest fresh consensus with its time |
| `Fees.StaleReportExact` | crates/satspath-router/src/fees.rs:582-680 | a report from the cache carries the time and names of the latest fetch that reached a consensus, and every tier is nearest to the weighted mean of that consensus and 20, 15, 10, 5 or 1; it counts as decayed once time has passed |
| `Fees.ReportExact` | crates/satspath-router/src/fees.rs:582-680 | fresh consensus when enough sources answered, else the cache while the latest consensus is not stale, else the fallback |
| `Fees.StaleReportsBetween` | crates/satspath-router/src/fees.rs:647-662 | a cached report lies tier by tier between the fallback and a consensus reached earlier in the run |
| `Tlv.Cursor.ReadBigSize` | crates/satspath-router/src/bolt12.rs:62-91 | reads the number at the position, or fails when bytes are missing |
| `Tlv.ByteBuffer.WriteBigSize` | crates/satspath-router/src/bolt12.rs:93-106 | appends the shortest of the four forms |
| `Tlv.ParseEncodeBigSize` | crates/satspath-router/src/bolt12.rs:62-106 | every 64-bit number reads back from its encoding, whatever follows |
| `Tlv.MinimalExact` | crates/satspath-router/src/bolt12.rs:62-106 | writing a number back gives its bytes exactly when they were minimal |
| `Tlv.DecodeTlvStream` | crates/satspath-router/src/bolt12.rs:133-144 | the loop computes the record list, or an error for a cut-off record |
| `Tlv.EncodeTlvStream` | crates/satspath-router/src/bolt12.rs:146-157 | writes the records in stable tag order |
| `Tlv.SortIsStable` | crates/satspath-router/src/bolt12.rs:146-157 | the records of every tag keep their given order |
| `Tlv.DecodeEncode` | crates/satspath-router/src/bolt12.rs:133-157 | decoding an encoding gives the stable sort by tag, for every record list |
| `Tlv.EncodeIsIdempotent` | crates/satspath-router/src/bolt12.rs:133-157 | encoding what was decoded from an encoding changes nothing |
| `Tlv.EncodeDecodeExact` | crates/satspath-router/src/bolt12.rs:133-157 | re-encoding accepted bytes gives them back exactly when all numbers are minimal and tags never decrease |
| `Bolt12.WriteTu64` | crates/satspath-router/src/bolt12.rs:120-131 | the loop writes the digits base 256 without leading zeros |
| `Bolt12.Tu64RoundTrip` | crates/satspath-router/src/bolt12.rs:108-131 | every 64-bit number, zero included, reads back |
| `Bolt12.Tu64Canonical` | crates/satspath-router/src/bolt12.rs:108-131 | of the strings the reader accepts exactly those without a leading zero are written |
| `Bolt12.OfferId` | crates/satspath-router/src/bolt12.rs:330-352 | the hashed bytes are the encoding of the records that are not signatures |
| `Bolt12.OfferIdExact` | crates/satspath-router/src/bolt12.rs:330-352 | two offers share an identifier exactly when, tag by tag and signatures apart, they hold the same records |
| `Bolt12.EncodeBytes` | crates/satspath-router/src/bolt12.rs:184-210 | the bytes of a blinded path, or an error for any field that is not hex |
| `Bolt12.DecodeBytes` | crates/satspath-router/src/bolt12.rs:212-248 | the path at the front of the bytes, or an error when bytes are missing |
| `Bolt12.PathRoundTrip` | crates/satspath-router/src/bolt12.rs:184-248 | decoding an encoded path followed by anything gives it back, an absent blinding point as 33 zero bytes |
| `Bolt12.PathExact` | crates/satspath-router/src/bolt12.rs:184-248 | a path that can be encoded comes back exactly when keys and payloads are lower-case hex of the right lengths |
| `Bolt12.ReencodeExact` | crates/satspath-router/src/bolt12.rs:184-248 | a decoded path encodes to the bytes it was read from exactly when the hop count and all payload lengths are minimal |
| `Bolt12.EncodeRequest` | crates/satspath-router/src/bolt12.rs:421-480 | the TLV bytes of an invoice request; hex fields that do not decode are left out |
| `Bolt12.RequestOnWire` | crates/satspath-router/src/bolt12.rs:421-480 | which records a request is written as, and under which types: metadata, offer, amount, and what else is present and readable, in increasing order |
| `Bolt12.ParseRequest` | crates/satspath-router/src/bolt12.rs:780-891 | the loop keeps the last good value of every field; bytes that are no stream give the empty request |
| `Bolt12.FieldsExact` | crates/satspath-router/src/bolt12.rs:780-891 | whatever the records, every field shows its last usable record, and nothing without one |
| `Bolt12.RequestRoundTrip` | crates/satspath-router/src/bolt12.rs:421-891 | amount, quantity, note and offer come back for every value, payer and signature up to spelling |
| `Bolt12.RequestExact` | crates/satspath-router/src/bolt12.rs:421-891 | amount, payer, quantity, note and signature all come back exactly when payer and signature are absent or lower-case hex; the parser gives the offer as its hash, and no paths and no expiries |
| `SilentPayments.SmallestIsLeast` | crates/satspath-router/src/silent_payments.rs:59-61 | the smallest outpoint is one of the inputs and lexicographically least |
| `SilentPayments.SmallestOfSet` | crates/satspath-router/src/silent_payments.rs:59-61 | it depends only on which outpoints there are |
| `SilentPayments.CreateOutputWithIndex` | crates/satspath-router/src/silent_payments.rs:267-352 | the loops collect keys and outpoints, sum the keys and derive the output, with the error of each step |
| `SilentPaymentKeys.CreatedExact` | crates/satspath-router/src/silent_payments.rs:267-353 | an output is created exactly with the secret scan key times input key sum times input hash, the tweaked key spend plus hash of secret and index, its x-only form and the amount |
| `SilentPaymentKeys.CreatableExact` | crates/satspath-router/src/silent_payments.rs:267-353 | it exists exactly when the keys are good, no partial sum vanishes, no hash is out of range, and neither product nor tweaked sum vanishes |
| `SilentPaymentKeys.DistinctOutputs` | crates/satspath-router/src/silent_payments.rs:334-349 | two outputs for one receiver pay to one key exactly when the hashes of their indices are equal |
| `SilentPaymentKeys.LexExact` | crates/satspath-router/src/silent_payments.rs:59-61 | the order of outpoints is decided by the first byte in which they differ |
| `SilentPayments.ScanOutputsForSharedSecret` | crates/satspath-router/src/silent_payments.rs:389-434 | the nested loops report what the recursive scan with its early stop reports |
| `SilentPaymentAgreement.SumIsCombined` | crates/satspath-router/src/silent_payments.rs:293-308 | the summed secret key belongs to the combined public key |
| `SilentPaymentAgreement.SumFailsExact` | crates/satspath-router/src/silent_payments.rs:293-308 | summing fails exactly when some beginning of at least two keys adds up to a multiple of the group order |
| `SilentPaymentAgreement.ScanFails` | crates/satspath-router/src/silent_payments.rs:389-434 | a scan fails exactly when it gets to an index whose key cannot be derived |
| `SilentPaymentAgreement.ScanExact` | crates/satspath-router/src/silent_payments.rs:389-434 | a successful scan reports exactly the outputs that pay an index it gets to |
| `SilentPaymentKeys.ScanReportsExact` | crates/satspath-router/src/silent_payments.rs:389-434 | an output is reported exactly when it pays spend plus hash for one of the first ten indices, all before it having keys and all but the first being paid |
| `SilentPaymentAgreement.SecretsAgree` | crates/satspath-router/src/silent_payments.rs:309-328 | both sides of the exchange reach one shared secret |
| `SilentPaymentAgreement.PaymentsFound` | crates/satspath-router/src/silent_payments.rs:267-463 | of up to ten outputs with indices from 0, made from at least one input key, the receiver finds all, reports only outputs paying a derived index, and fails only over a tweak beyond them |
| `SilentPaymentAgreement.PaymentsFoundExact` | crates/satspath-router/src/silent_payments.rs:267-463 | with a fresh key for every call a successful detection finds the payments exactly when some input carries a key; without one it reports nothing |
| `SilentPaymentAgreement.DetectFromInputKeys` | crates/satspath-router/src/silent_payments.rs:437-463 | detection from the input keys equals detection from their sum |
| `SilentPaymentAgreement.DetectNothing` | crates/satspath-router/src/silent_payments.rs:437-463 | without keys or outputs detection returns nothing, and keys whose sum vanishes are an error otherwise |
| `SilentPaymentAgreement.DetectWithoutHashExact` | crates/satspath-router/src/silent_payments.rs:437-463 | detection without an input hash reaches the sender's secret for every hash function exactly when no outpoint was hashed |
| `SilentPaymentAgreement.SpendingKeyFits` | crates/satspath-router/src/silent_payments.rs:468-497 | the derived key exists exactly when the output key does and is the one even key with the output's x-only key |
| `SilentPaymentKeys.SpendingKeyExact` | crates/satspath-router/src/silent_payments.rs:468-498 | the spending key is spend plus hash modulo the order, or its opposite for an odd point |
| `SilentPaymentAgreement.PaymentIsSpendable` | crates/satspath-router/src/silent_payments.rs:468-497 | every output that a sender creates has a spending key for its script |
| `SilentPaymentAgreement.InputOrderExact` | crates/satspath-router/src/silent_payments.rs:279-308 | two orders of the inputs give one result exactly when a partial sum of the keys vanishes in both or in neither |
| `SilentPaymentAgreement.OutputDependsOnOrder` | crates/satspath-router/src/silent_payments.rs:267-352 | an output that is created from three inputs in one order and not in another |
| `Utf8.CutPoint` | crates/satspath-core/src/bip353_publish.rs:76-85 | valid text can be cut at most three bytes before any limit |
| `Utf8.ValidExact` | crates/satspath-core/src/bip353_publish.rs:71-90 | bytes pass the check exactly when they encode a text of Unicode scalar values |
| `DnsPublish.ChunkTxt` | crates/satspath-core/src/bip353_publish.rs:71-89 | both loops end on every valid payload and cut at the longest valid beginning each time |
| `DnsPublish.ChunksFit` | crates/satspath-core/src/bip353_publish.rs:71-89 | nothing is lost, each string is text of at most 255 bytes, and all but the last have at least 252 |
| `DnsPublish.CountExact` | crates/satspath-core/src/bip353_publish.rs:71-89 | more than n strings are needed exactly when the first n cuts leave something over |
| `DnsPublish.PlanExact` | crates/satspath-core/src/bip353_publish.rs:50-181 | a plan of either kind exists exactly for public payment instructions of at most 2040 bytes; its record is where the receiver's name leads and carries the URI in at most nine strings, in eight exactly when the first eight cuts take all |
| `DnsPublish.TtlExact` | crates/satspath-core/src/bip353_publish.rs:122-139 | a plan rotates and is kept for 300 seconds exactly for a URI with anything but a query after the scheme, and else for 1800 |
| `DnsPublish.NamesExact` | crates/satspath-core/src/bip353_publish.rs:142-182 | the strings are kept under the receiver's own name, or under the same user in the managed domain where the receiver's CNAME leads |
| `DnsPublish.AsciiPlan` | crates/satspath-core/src/bip353_publish.rs:71-89 | ASCII text fills every string and never needs a ninth |
| `DnsPublish.NineStrings` | crates/satspath-core/src/bip353_publish.rs:50-151 | the largest instruction of four-byte characters needs nine |
| `DnsResolve.ExtractQuotedStrings` | crates/satspath-core/src/bip353.rs:390-416 | the nested loops compute the quoted strings, or the data itself when there are none |
| `DnsResolve.ExtractExact` | crates/satspath-core/src/bip353.rs:390-416 | extraction inverts quoting, with any escapes that RFC 1035 section 5.1 allows and any separators, exactly when no byte is a decimal escape, that is when no quoted body has a backslash before a digit |
| `DnsResolve.BodyUnique` | crates/satspath-core/src/bip353.rs:390-416 | the bytes between two quotes were written in one way only, so their text and their escapes are facts about the bytes |
| `DnsResolve.NoDigitEscapeExact` | crates/satspath-core/src/bip353.rs:390-416 | a byte is written as a decimal escape exactly when the bytes hold a backslash before a digit |
| `DnsResolve.ResolveBip353With` | crates/satspath-core/src/bip353.rs:168-232 | filtering, the none and several errors, the screens and the DNSSEC policy, in their order |
| `DnsResolve.ResolveExact` | crates/satspath-core/src/bip353.rs:168-232 | resolution succeeds exactly when one record alone is a payment record and passes, and returns its text |
| `DnsResolve.PublishedResolves` | crates/satspath-core/src/bip353.rs:168-232 | whatever a published plan of either kind resolves to is exactly the planned URI |
| `Invites.InviteStore.Insert` | crates/satspath-core/src/invite_store.rs:84-89 | sets one record |
| `Invites.InviteStore.Get` | crates/satspath-core/src/invite_store.rs:93-103 | shows the record that listing would store at the same time |
| `Invites.InviteStore.List` | crates/satspath-core/src/invite_store.rs:123-141 | stores overdue invites as expired and returns every record once, newest first |
| `Invites.InviteStore.Claim` | crates/satspath-core/src/invite_store.rs:145-185 | result, record and notification of every call, including a late one |
| `Invites.InviteStore.Cancel` | crates/satspath-core/src/invite_store.rs:189-204 | result and record of every call |
| `Invites.InviteStore.MarkNotificationRead` | crates/satspath-core/src/invite_store.rs:212-221 | marks the first notification with the id and no other |
| `Invites.InviteStore.MarkAllNotificationsRead` | crates/satspath-core/src/invite_store.rs:224-229 | marks every notification and changes nothing else |
| `InviteRuns.StepIsLocal` | crates/satspath-core/src/invite_store.rs:84-229 | a call changes an invite as its own record says and adds a notification exactly when it claims it |
| `InviteRuns.ClaimOutcome` | crates/satspath-core/src/invite_store.rs:145-185 | a claim changes the invite and notifies with its details exactly before its time on an invite neither claimed nor cancelled; a late attempt leaves it expired, any other refusal leaves everything as it was |
| `InviteRuns.ReadExact` | crates/satspath-core/src/invite_store.rs:205-229 | marking one notification reads the first with its identifier, marking all reads all, and no other call reads any |
| `InviteRuns.RunSound` | crates/satspath-core/src/invite_store.rs:84-229 | in every run each invite has at most one notification, exactly one if and only if it carries a claim, with the same time and key |
| `InviteRuns.ClaimExact` | crates/satspath-core/src/invite_store.rs:145-185 | a claim changes exactly when the invite is claimed while claimable |
| `InviteRuns.ClaimIsFinal` | crates/satspath-core/src/invite_store.rs:145-185 | once an invite is claimed, cancelled or past its time, its claim never changes |
| `InviteRuns.CancelExact` | crates/satspath-core/src/invite_store.rs:189-204 | cancelling a claimed invite is refused exactly as long as nobody tried to claim it late |
| `InviteRuns.ClaimedThenCancelled` | crates/satspath-core/src/invite_store.rs:189-204 | a run that cancels a claimed invite |
| `InviteRuns.RunIsLife` | crates/satspath-core/src/invite_store.rs:84-229 | at any times, an inserted invite lives as its own record says and is notified about as often as it is claimed |
| `InviteRuns.SecondNotificationExact` | crates/satspath-core/src/invite_store.rs:145-204 | at any times, an invite gets a second notification exactly when an early attempt claims it, a late attempt follows that no cancellation follows, and then an early attempt again |
| `InviteRuns.ClockBackwards` | crates/satspath-core/src/invite_store.rs:145-185 | with a clock running backwards an invite is claimed twice |
| `Scoring.CandidateScore` | crates/satspath-router/src/scoring.rs:267-304 | the running score, with the signed reading of fees and division towards zero |
| `Scoring.CollectCandidates` | crates/satspath-router/src/scoring.rs:70-224 | the two vectors stay side by side; methods without a pointer are skipped |
| `Scoring.Locate` | crates/satspath-router/src/scoring.rs:70-224 | the k-th candidate and the k-th pointer come from one method, and the candidates around them from the methods around it |
| `Scoring.SelectIndex` | crates/satspath-router/src/scoring.rs:228-242 | the last of the highest scoring eligible candidates |
| `Scoring.ScoreRoutes` | crates/satspath-router/src/scoring.rs:64-265 | selection and pointer come from one eligible method that none beats, the alternatives are all others in order, and an error means that none is eligible |
| `Scoring.DecisionUnique` | crates/satspath-router/src/scoring.rs:228-264 | that description leaves one decision |
| `Scoring.IrrelevantAlternative` | crates/satspath-router/src/scoring.rs:228-264 | dropping a method that was not selected changes neither selection nor pointer |
| `Scoring.SelectionIsAllowed` | crates/satspath-router/src/scoring.rs:70-242 | a selected route is no dust, known in fee on chain, allowed for Ark and within the fee limit, with a pointer of its rail |
| `Scoring.FeeOrderExact` | crates/satspath-router/src/scoring.rs:279-281 | a cheaper fee never scores lower exactly as long as the fee is below 2^63 |
| `Scoring.OnchainFeeExact` | crates/satspath-router/src/scoring.rs:138-142 | the on-chain fee is 141 times the first rate present exactly when that fits 64 bits |
| `Scoring.PreferenceExact` | crates/satspath-router/src/scoring.rs:292-301 | a rail named earlier gets more, and a named rail gets more than an unnamed one exactly within the first five names |
| `Scoring.ScoreFits` | crates/satspath-router/src/scoring.rs:267-304 | the score stays in the signed 64-bit range |
| `Scoring.TimeOrderExact` | crates/satspath-router/src/scoring.rs:276-278 | for a sender in a hurry a faster candidate never scores lower exactly below 2^63 seconds, thirty of which cost a point; an unknown time counts as an hour |
| `Scoring.FeeCost` | crates/satspath-router/src/scoring.rs:279-281 | for a sender who minds fees ten satoshis cost a point and an unknown fee counts as 10,000 |
| `Scoring.QualityOrder` | crates/satspath-router/src/scoring.rs:273-275 | a more private or more reliable candidate scores higher, by 8 or 2 and by 10 points a step |
| `Scoring.RailOrder` | crates/satspath-router/src/scoring.rs:282-290 | Lightning is 30 points ahead up to a million satoshis, on-chain 20 from a million on, and Ark 1,000 behind without consent |
| `Scoring.PreferenceGain` | crates/satspath-router/src/scoring.rs:292-301 | the first name gains 50 points, each later one ten less, a rail without a name nothing |
| `Scoring.LightningFeeExact` | crates/satspath-router/src/scoring.rs:80-82 | without an estimate the fee is one satoshi for every full ten thousand, at least one |
| `Scoring.LightningOffer` | crates/satspath-router/src/scoring.rs:75-133 | a Lightning method gives a candidate exactly with an address, a callback or an offer, and points to the first of them |
| `Scoring.Bolt12Route` | crates/satspath-router/src/scoring.rs:171-195 | an offer of its own is always available, faster and more reliable, and more private with blinded paths |
| `Scoring.OnchainRoute` | crates/satspath-router/src/scoring.rs:134-170 | an on-chain method is available exactly above dust with a known rate, points to the silent payment key first, and is less reliable with a complex descriptor |
| `Scoring.ArkRoute` | crates/satspath-router/src/scoring.rs:196-224 | an Ark method is available exactly with consent and costs a satoshi without an estimate |
| `Scoring.EligibleExact` | crates/satspath-router/src/scoring.rs:228-236 | a candidate may be selected exactly when it is available and its fee is within the limit, an unknown fee only within the largest |

## Left out

- Real cryptography: curve membership, Schnorr, ML-DSA, SHA-256, HMAC and tagged hashes are symbolic or arbitrary functions; `Registry.IdentifierHash` is an injective stand-in for the keyed hash.
- Files, network, JSON and environment variables; `FilePinStore` is not part of this model. Saving a file is a parameter that succeeds or fails.
- Witness.WitnessService.ProcessCheckpoint: one call is one step, because the code takes no lock between reading and saving the pin; interleaving is free between witnesses, not inside a call. A checkpoint hash always serializes.
- Witness.VerifyQuorum: the checkpoint hash is the term of its fields, so serialization errors do not occur.
- StateMap.SameLeafExact: the bytes of text that is not hex are character codes, which differ from UTF-8 outside ASCII.
- Checkpoint inclusion and operator key rotation of checkpoints, which compose the verifiers modelled here.
- Fees.ComputeMedianFee: an overflowing sum wraps around as in a release build; a debug build stops instead.
- Fees.DecayMovesToFallback: exact rationals with rounding to the nearest whole number in place of 64-bit floating point.
- Reading fee estimates from mempool, Esplora and Bitcoin Core; answers arrive repaired, as the readers leave them.
- Tlv.DecodeTlvStream: lengths that no memory can hold end in an error instead of an allocation failure.
- Bolt12.DecodeBytes: the same for hop counts and payload lengths.
- Bolt12.ParseRequest: the bech32 and base32 layers and the mock fallbacks around the TLV bytes.
- SilentPayments.CreateOutputWithIndex: parsing of hex keys and outpoint text; an input carries its key, a bad key or none, and an outpoint or none.
- SilentPaymentAgreement.PaymentsFound: the receiver's public keys are those of exactly the inputs that carry a secret key; the separate `input_pubkey` text, which the sender never reads, is not modelled.
- SilentPayment addresses and legacy scan keys: text formats only.
- DnsResolve.ResolveBip353With: parsing of the name, the BIP-321 parser and the private-material screen are parameters.
- DnsPublish.PlanExact: the list of forbidden terms is a parameter; signed update challenges and the audit record are not modelled.
- DNS over HTTPS transport, the mock publisher and the mock resolver: map insertions only.
- Invites.InviteStore.List: records with one creation time come in an arbitrary order, as from a hash map. Lookup by identifier hash is a filter of the same records.
- Reopening an invite store or registry from its file after a failed save.
- Scoring.CandidateScore: sums are unbounded integers; `Scoring.ScoreFits` shows that fewer than 2^56 preferences cannot overflow them. The product of rate and size wraps as in a release build.
- Explanations for people, Ark route plans, URL filters, execution gates, swap labels, the WASM crate, the command line and the HTTP daemon: finite checks or text.
