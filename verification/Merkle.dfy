/** The transparency log's Merkle tree (RFC 6962 section 2.1): roots, inclusion paths,
    consistency proofs, and the two verifiers that clients run on them.

    Hashes are symbolic: a digest is the term that was hashed, so node hashing is injective and
    leaf hashes (prefix 0x00), node hashes (prefix 0x01) and the hash of the empty string never
    coincide. `Chosen` stands for 32 bytes that somebody made up.
  */
module Merkle {
  import opened Prelude

  datatype Digest =
    | EmptyTree
    | Leaf(payload: string)
    | Node(left: Digest, right: Digest)
    | Chosen(bits: nat)

  /** A hash as text on the wire: 64 hex digits, in one of the upper- and lower-case spellings of
      a digest, or text that does not decode. Decoding ignores the case; comparisons of text do
      not. */
  datatype HashText = Spelled(digest: Digest, spelling: nat) | NotAHash(text: string)

  /** The all lower-case spelling, which is the one that the code writes. */
  function Spell(digest: Digest): HashText {
    Spelled(digest, 0)
  }

  function SpellAll(path: seq<Digest>): seq<HashText> {
    if path == [] then [] else [Spell(path[0])] + SpellAll(path[1..])
  }

  function DecodeAll(path: seq<HashText>): (digests: Option<seq<Digest>>)
    ensures digests.Some? ==> |digests.value| == |path|
  {
    if path == [] then Some([])
    else
      var rest := DecodeAll(path[1..]);
      if path[0].NotAHash? || rest.None? then None else Some([path[0].digest] + rest.value)
  }

  lemma {:induction false} DecodeSpelled(path: seq<Digest>)
    ensures DecodeAll(SpellAll(path)) == Some(path)
  {
    if path != [] {
      DecodeSpelled(path[1..]);
      assert SpellAll(path)[1..] == SpellAll(path[1..]);
      assert path == [path[0]] + path[1..];
    }
  }

  datatype Verdict = Accepted(holds: bool) | Malformed

  // ---------------------------------------------------------------------------------------
  // Tree shape
  // ---------------------------------------------------------------------------------------

  function FloorPow2(x: nat): (p: nat)
    requires x > 0
    ensures 0 < p <= x < 2 * p
  {
    if x == 1 then 1 else 2 * FloorPow2(x / 2)
  }

  function LargestPow2Below(n: nat): (k: nat)
    requires n > 1
    ensures 0 < k < n <= 2 * k
  {
    FloorPow2(n - 1)
  }

  lemma SplitHalves(n: nat)
    requires n >= 3
    ensures LargestPow2Below(n) % 2 == 0
    ensures LargestPow2Below((n + 1) / 2) == LargestPow2Below(n) / 2
  {
    assert (n + 1) / 2 - 1 == (n - 1) / 2;
  }

  function Root(leaves: seq<Digest>): Digest
    decreases |leaves|
  {
    if |leaves| == 0 then EmptyTree
    else if |leaves| == 1 then leaves[0]
    else
      var k := LargestPow2Below(|leaves|);
      Node(Root(leaves[..k]), Root(leaves[k..]))
  }

  /** One level up: neighbours are hashed together and an odd last entry is promoted. */
  function PairUp(row: seq<Digest>): (up: seq<Digest>)
    ensures |up| == (|row| + 1) / 2
    ensures forall i | 0 <= i < |up| ::
              up[i] == if 2 * i + 1 < |row| then Node(row[2 * i], row[2 * i + 1]) else row[2 * i]
  {
    seq((|row| + 1) / 2, i requires 0 <= i < (|row| + 1) / 2 =>
      if 2 * i + 1 < |row| then Node(row[2 * i], row[2 * i + 1]) else row[2 * i])
  }

  lemma PairUpSplit(row: seq<Digest>, k: nat)
    requires k <= |row| && k % 2 == 0
    ensures PairUp(row)[..k / 2] == PairUp(row[..k])
    ensures PairUp(row)[k / 2..] == PairUp(row[k..])
    ensures PairUp(row) == PairUp(row[..k]) + PairUp(row[k..])
  {
  }

  /** The recursive tree of RFC 6962 is the one built level by level from the leaves up. */
  lemma {:induction false} RootByLevels(row: seq<Digest>)
    ensures Root(PairUp(row)) == Root(row)
    decreases |row|
  {
    if |row| <= 1 {
      assert PairUp(row) == row;
    } else if |row| == 2 {
      assert PairUp(row) == [Node(row[0], row[1])];
      assert row[..1] == [row[0]] && row[1..] == [row[1]];
    } else {
      var k := LargestPow2Below(|row|);
      RootByLevels(row[..k]);
      RootByLevels(row[k..]);
      RootByLevelsStep(row, k);
    }
  }

  lemma RootByLevelsStep(row: seq<Digest>, k: nat)
    requires |row| >= 3 && k == LargestPow2Below(|row|)
    requires Root(PairUp(row[..k])) == Root(row[..k])
    requires Root(PairUp(row[k..])) == Root(row[k..])
    ensures Root(PairUp(row)) == Root(row)
  {
    hide *;
    SplitHalves(|row|);
    PairUpSplit(row, k);
    RootUnfold(row, k);
    RootUnfold(PairUp(row), k / 2);
  }

  lemma RootUnfold(row: seq<Digest>, k: nat)
    requires |row| >= 2 && k == LargestPow2Below(|row|)
    ensures Root(row) == Node(Root(row[..k]), Root(row[k..]))
  {
  }

  /** Two logs of the same length with the same root are the same log. */
  lemma {:induction false} RootInjective(a: seq<Digest>, b: seq<Digest>)
    requires |a| == |b| && Root(a) == Root(b)
    ensures a == b
    decreases |a|
  {
    if |a| >= 2 {
      var k := LargestPow2Below(|a|);
      RootInjective(a[..k], b[..k]);
      RootInjective(a[k..], b[k..]);
      assert a == a[..k] + a[k..] && b == b[..k] + b[k..];
    }
  }

  // ---------------------------------------------------------------------------------------
  // Proof generation
  // ---------------------------------------------------------------------------------------

  function InclusionPath(leaves: seq<Digest>, index: nat): seq<Digest>
    requires index < |leaves|
    decreases |leaves|
  {
    if |leaves| <= 1 then []
    else
      var k := LargestPow2Below(|leaves|);
      if index < k then InclusionPath(leaves[..k], index) + [Root(leaves[k..])]
      else InclusionPath(leaves[k..], index - k) + [Root(leaves[..k])]
  }

  function SubProof(leaves: seq<Digest>, m: nat, complete: bool): seq<Digest>
    requires 0 < m <= |leaves|
    decreases |leaves|
  {
    if m == |leaves| then
      if complete then [] else [Root(leaves)]
    else
      var k := LargestPow2Below(|leaves|);
      if m <= k then SubProof(leaves[..k], m, complete) + [Root(leaves[k..])]
      else SubProof(leaves[k..], m - k, false) + [Root(leaves[..k])]
  }

  function ConsistencyProof(leaves: seq<Digest>, oldSize: nat): Option<seq<Digest>> {
    if oldSize == 0 || oldSize > |leaves| then None
    else if oldSize == |leaves| then Some([])
    else Some(SubProof(leaves, oldSize, true))
  }

  /** The sibling that joins position `index` of a row on the way up, if it has one. */
  function Sibling(row: seq<Digest>, index: nat): seq<Digest>
    requires index < |row|
  {
    if index % 2 == 1 then [row[index - 1]]
    else if index + 1 < |row| then [row[index + 1]]
    else []
  }

  lemma InclusionPathUnfold(row: seq<Digest>, index: nat, k: nat)
    requires index < |row| && |row| >= 2 && k == LargestPow2Below(|row|)
    ensures InclusionPath(row, index)
         == if index < k then InclusionPath(row[..k], index) + [Root(row[k..])]
            else InclusionPath(row[k..], index - k) + [Root(row[..k])]
  {
  }

  lemma InclusionPathLeft(row: seq<Digest>, index: nat, k: nat)
    requires |row| >= 3 && k == LargestPow2Below(|row|) && index < k
    ensures index / 2 < k / 2
    ensures InclusionPath(PairUp(row), index / 2)
         == InclusionPath(PairUp(row[..k]), index / 2) + [Root(row[k..])]
  {
    hide *;
    SplitHalves(|row|);
    PairUpSplit(row, k);
    RootByLevels(row[k..]);
    InclusionPathUnfold(PairUp(row), index / 2, k / 2);
  }

  lemma InclusionPathRight(row: seq<Digest>, index: nat, k: nat)
    requires |row| >= 3 && k == LargestPow2Below(|row|) && k <= index < |row|
    ensures (index - k) / 2 < |PairUp(row[k..])|
    ensures InclusionPath(PairUp(row), index / 2)
         == InclusionPath(PairUp(row[k..]), (index - k) / 2) + [Root(row[..k])]
  {
    hide *;
    SplitHalves(|row|);
    PairUpSplit(row, k);
    RootByLevels(row[..k]);
    assert index / 2 - k / 2 == (index - k) / 2;
    InclusionPathUnfold(PairUp(row), index / 2, k / 2);
  }

  lemma SiblingSplit(row: seq<Digest>, index: nat, k: nat)
    requires index < |row| && k <= |row| && k % 2 == 0
    ensures Sibling(row, index) == if index < k then Sibling(row[..k], index) else Sibling(row[k..], index - k)
  {
  }

  lemma {:induction false} InclusionPathByLevels(row: seq<Digest>, index: nat)
    requires index < |row| && |row| >= 2
    ensures InclusionPath(row, index) == Sibling(row, index) + InclusionPath(PairUp(row), index / 2)
    decreases |row|
  {
    hide *;
    if |row| == 2 {
      InclusionPathOfTwo(row, index);
    } else {
      var k := LargestPow2Below(|row|);
      SplitHalves(|row|);
      InclusionPathUnfold(row, index, k);
      SiblingSplit(row, index, k);
      if index < k {
        InclusionPathByLevels(row[..k], index);
        InclusionPathLeft(row, index, k);
      } else {
        InclusionPathRight(row, index, k);
        if |row| - k == 1 {
          LonePath(row[k..]);
        } else {
          InclusionPathByLevels(row[k..], index - k);
        }
      }
    }
  }

  lemma LonePair(row: seq<Digest>)
    requires |row| == 1
    ensures PairUp(row) == row
  {
  }

  lemma LonePath(row: seq<Digest>)
    requires |row| == 1
    ensures PairUp(row) == row && InclusionPath(row, 0) == [] && Sibling(row, 0) == []
  {
    hide PairUp, Root, LargestPow2Below;
    LonePair(row);
  }

  lemma InclusionPathOfTwo(row: seq<Digest>, index: nat)
    requires index < |row| == 2
    ensures InclusionPath(row, index) == Sibling(row, index) + InclusionPath(PairUp(row), index / 2)
  {
    assert row[..1] == [row[0]] && row[1..] == [row[1]];
  }

  lemma SubProofUnfold(row: seq<Digest>, m: nat, complete: bool, k: nat)
    requires 0 < m < |row| && k == LargestPow2Below(|row|)
    ensures SubProof(row, m, complete)
         == if m <= k then SubProof(row[..k], m, complete) + [Root(row[k..])]
            else SubProof(row[k..], m - k, false) + [Root(row[..k])]
  {
  }

  lemma SubProofWhole(row: seq<Digest>, complete: bool)
    requires |row| > 0
    ensures SubProof(row, |row|, complete) == if complete then [] else [Root(row)]
  {
  }

  lemma {:induction false} SubProofEven(row: seq<Digest>, m: nat, complete: bool)
    requires 0 < m <= |row| && m % 2 == 0
    ensures SubProof(row, m, complete) == SubProof(PairUp(row), m / 2, complete)
    decreases |row|
  {
    hide *;
    RootByLevels(row);
    if m == |row| {
      SubProofWhole(row, complete);
      SubProofWhole(PairUp(row), complete);
    } else {
      var k := LargestPow2Below(|row|);
      SplitHalves(|row|);
      PairUpSplit(row, k);
      SubProofUnfold(row, m, complete, k);
      SubProofUnfold(PairUp(row), m / 2, complete, k / 2);
      if m <= k {
        RootByLevels(row[k..]);
        SubProofEven(row[..k], m, complete);
      } else {
        RootByLevels(row[..k]);
        SubProofEven(row[k..], m - k, false);
        assert m / 2 - k / 2 == (m - k) / 2;
      }
    }
  }

  function OldSubtree(row: seq<Digest>, m: nat, complete: bool): seq<Digest>
    requires 0 < m <= |row|
  {
    if complete && m == 1 then [] else [row[m - 1]]
  }

  lemma {:induction false} SubProofOdd(row: seq<Digest>, m: nat, complete: bool)
    requires m % 2 == 1 && (m < |row| || |row| == 1 == m)
    ensures SubProof(row, m, complete) == OldSubtree(row, m, complete) + InclusionPath(row, m - 1)
    decreases |row|
  {
    hide *;
    if |row| <= 2 {
      SubProofOddSmall(row, m, complete);
    } else {
      SplitHalves(|row|);
      var k := LargestPow2Below(|row|);
      SubProofUnfold(row, m, complete, k);
      InclusionPathUnfold(row, m - 1, k);
      OldSubtreeSplit(row, m, complete, k);
      if m <= k {
        SubProofOdd(row[..k], m, complete);
      } else {
        SubProofOdd(row[k..], m - k, false);
      }
    }
  }

  lemma SubProofOddSmall(row: seq<Digest>, m: nat, complete: bool)
    requires m == 1 <= |row| <= 2
    ensures SubProof(row, m, complete) == OldSubtree(row, m, complete) + InclusionPath(row, m - 1)
  {
    if |row| == 2 {
      assert row[..1] == [row[0]];
    }
  }

  lemma OldSubtreeSplit(row: seq<Digest>, m: nat, complete: bool, k: nat)
    requires 0 < m <= |row| && 0 < k < |row|
    ensures OldSubtree(row, m, complete)
         == if m <= k then OldSubtree(row[..k], m, complete) else OldSubtree(row[k..], m - k, false)
  {
  }

  // ---------------------------------------------------------------------------------------
  // Consistency verification
  // ---------------------------------------------------------------------------------------

  function Strip(f: nat, s: nat): (r: (nat, nat))
    requires f <= s
    ensures r.0 <= r.1 && r.0 % 2 == 0 && (f < s ==> r.0 < r.1)
  {
    if f % 2 == 1 then Strip(f / 2, s / 2) else (f, s)
  }

  /** What remains of a consistency check at one level: the old and new hashes so far, and the
      unread proof. `None` when the proof is too short or too long. */
  function Climb(f: nat, s: nat, oldHash: Digest, newHash: Digest, proof: seq<Digest>): Option<(Digest, Digest)>
    requires f <= s
    decreases s
  {
    if s == 0 then
      if proof == [] then Some((oldHash, newHash)) else None
    else if f % 2 == 1 then
      if proof == [] then None
      else Climb(f / 2, s / 2, Node(proof[0], oldHash), Node(proof[0], newHash), proof[1..])
    else if f < s then
      if proof == [] then None
      else Climb(f / 2, s / 2, oldHash, Node(newHash, proof[0]), proof[1..])
    else
      Climb(f / 2, s / 2, oldHash, newHash, proof)
  }

  /** The decision `VerifyConsistency` takes for sizes it does not reject. */
  predicate ConsistencyAccepts(oldSize: nat, newSize: nat, oldRoot: Digest, newRoot: Digest, proof: seq<Digest>)
    requires 0 < oldSize <= newSize
  {
    if oldSize == newSize then oldRoot == newRoot && proof == []
    else if proof == [] then false
    else
      var (f, s) := Strip(oldSize - 1, newSize - 1);
      if f == 0 then Climb(f, s, oldRoot, oldRoot, proof) == Some((oldRoot, newRoot))
      else Climb(f, s, proof[0], proof[0], proof[1..]) == Some((oldRoot, newRoot))
  }

  method VerifyConsistency(oldSize: nat, newSize: nat, oldRoot: Digest, newRoot: Digest, proof: seq<Digest>)
    returns (v: Verdict)
    ensures v == if 0 < oldSize <= newSize
                 then Accepted(ConsistencyAccepts(oldSize, newSize, oldRoot, newRoot, proof))
                 else Malformed
  {
    if oldSize == 0 || oldSize > newSize {
      return Malformed;
    }
    if oldSize == newSize {
      return Accepted(oldRoot == newRoot && proof == []);
    }
    if proof == [] {
      return Accepted(false);
    }

    var f, s := oldSize - 1, newSize - 1;
    while f % 2 == 1
      invariant 0 <= f < s
      invariant Strip(f, s) == Strip(oldSize - 1, newSize - 1)
      decreases f
    {
      f, s := f / 2, s / 2;
    }

    var fr, sr, p := oldRoot, oldRoot, 0;
    if f != 0 {
      fr, sr, p := proof[0], proof[0], 1;
    }
    ghost var outcome := Climb(f, s, fr, sr, proof[p..]);
    assert proof[0..] == proof;
    assert ConsistencyAccepts(oldSize, newSize, oldRoot, newRoot, proof) <==> outcome == Some((oldRoot, newRoot));

    while f > 0
      invariant 0 <= f <= s && p <= |proof|
      invariant Climb(f, s, fr, sr, proof[p..]) == outcome
      decreases f
    {
      if f % 2 == 1 {
        if p >= |proof| {
          return Accepted(false);
        }
        var pr := proof[p];
        p := p + 1;
        fr := Node(pr, fr);
        sr := Node(pr, sr);
      } else if f < s {
        if p >= |proof| {
          return Accepted(false);
        }
        var pr := proof[p];
        p := p + 1;
        sr := Node(sr, pr);
      }
      f, s := f / 2, s / 2;
    }

    while s > 0
      invariant f == 0 <= s && p <= |proof|
      invariant Climb(0, s, fr, sr, proof[p..]) == outcome
      decreases s
    {
      if p >= |proof| {
        return Accepted(false);
      }
      var pr := proof[p];
      p := p + 1;
      sr := Node(sr, pr);
      s := s / 2;
    }

    return Accepted(fr == oldRoot && sr == newRoot && p == |proof|);
  }

  lemma PairUpReplacedLast(row: seq<Digest>, f: nat, last: Digest)
    requires f < |row|
    ensures PairUp(row[..f] + [last])
         == PairUp(row)[..f / 2] + [if f % 2 == 1 then Node(row[f - 1], last) else last]
  {
    var r := row[..f] + [last];
    assert forall i | 0 <= i < f / 2 :: PairUp(r)[i] == PairUp(row)[i];
  }

  /** At one level, with `row` the true new-tree row: the check ends with the true new root
      exactly when it started from the row's own entry at `f` and the proof lists that entry's
      siblings; the old hash then ends as the root of the row cut after `f`. */
  ghost predicate ClimbsExactly(row: seq<Digest>, f: nat, oldHash: Digest, newHash: Digest, proof: seq<Digest>)
    requires f < |row|
  {
    var out := Climb(f, |row| - 1, oldHash, newHash, proof);
    var reached := out.Some? && out.value.1 == Root(row);
    && (reached <==> newHash == row[f] && proof == InclusionPath(row, f))
    && (reached ==> out.value.0 == Root(row[..f] + [oldHash]))
  }

  lemma ClimbOdd(row: seq<Digest>, f: nat, oldHash: Digest, newHash: Digest, proof: seq<Digest>)
    requires f < |row| && f % 2 == 1 && proof != []
    requires ClimbsExactly(PairUp(row), f / 2, Node(proof[0], oldHash), Node(proof[0], newHash), proof[1..])
    ensures ClimbsExactly(row, f, oldHash, newHash, proof)
  {
    hide Root, InclusionPath;
    RootByLevels(row);
    InclusionPathByLevels(row, f);
    PairUpReplacedLast(row, f, oldHash);
    RootByLevels(row[..f] + [oldHash]);
    assert PairUp(row)[f / 2] == Node(row[f - 1], row[f]);
    assert proof == [proof[0]] + proof[1..];
  }

  lemma ClimbEven(row: seq<Digest>, f: nat, oldHash: Digest, newHash: Digest, proof: seq<Digest>)
    requires f + 1 < |row| && f % 2 == 0 && proof != []
    requires ClimbsExactly(PairUp(row), f / 2, oldHash, Node(newHash, proof[0]), proof[1..])
    ensures ClimbsExactly(row, f, oldHash, newHash, proof)
  {
    hide Root, InclusionPath;
    RootByLevels(row);
    InclusionPathByLevels(row, f);
    PairUpReplacedLast(row, f, oldHash);
    RootByLevels(row[..f] + [oldHash]);
    assert PairUp(row)[f / 2] == Node(row[f], row[f + 1]);
    assert proof == [proof[0]] + proof[1..];
  }

  lemma ClimbPromoted(row: seq<Digest>, f: nat, oldHash: Digest, newHash: Digest, proof: seq<Digest>)
    requires 0 < f == |row| - 1 && f % 2 == 0
    requires ClimbsExactly(PairUp(row), f / 2, oldHash, newHash, proof)
    ensures ClimbsExactly(row, f, oldHash, newHash, proof)
  {
    hide Root, InclusionPath;
    RootByLevels(row);
    InclusionPathByLevels(row, f);
    PairUpReplacedLast(row, f, oldHash);
    RootByLevels(row[..f] + [oldHash]);
    assert PairUp(row)[f / 2] == row[f];
  }

  lemma {:induction false} ClimbExact(row: seq<Digest>, f: nat, oldHash: Digest, newHash: Digest, proof: seq<Digest>)
    requires f < |row|
    ensures ClimbsExactly(row, f, oldHash, newHash, proof)
    decreases |row|
  {
    hide *;
    if |row| == 1 {
      ClimbAtRoot(row, oldHash, newHash, proof);
    } else if f % 2 == 0 && f == |row| - 1 {
      ClimbExact(PairUp(row), f / 2, oldHash, newHash, proof);
      ClimbPromoted(row, f, oldHash, newHash, proof);
    } else if proof == [] {
      ClimbStuck(row, f, oldHash, newHash);
    } else if f % 2 == 1 {
      ClimbExact(PairUp(row), f / 2, Node(proof[0], oldHash), Node(proof[0], newHash), proof[1..]);
      ClimbOdd(row, f, oldHash, newHash, proof);
    } else {
      ClimbExact(PairUp(row), f / 2, oldHash, Node(newHash, proof[0]), proof[1..]);
      ClimbEven(row, f, oldHash, newHash, proof);
    }
  }

  lemma ClimbAtRoot(row: seq<Digest>, oldHash: Digest, newHash: Digest, proof: seq<Digest>)
    requires |row| == 1
    ensures ClimbsExactly(row, 0, oldHash, newHash, proof)
  {
    assert row[..0] + [oldHash] == [oldHash];
  }

  lemma ClimbStuck(row: seq<Digest>, f: nat, oldHash: Digest, newHash: Digest)
    requires f < |row| && |row| >= 2 && (f % 2 == 1 || f < |row| - 1)
    ensures ClimbsExactly(row, f, oldHash, newHash, [])
  {
    hide Root, InclusionPath;
    InclusionPathByLevels(row, f);
  }

  /** `top` is the row that `Strip` climbs to: the old tree is still a prefix of it, and the
      rest of the proof is an inclusion path in it. */
  ghost predicate StripsTo(row: seq<Digest>, m: nat, top: seq<Digest>)
    requires 0 < m < |row|
  {
    var (f, s) := Strip(m - 1, |row| - 1);
    && |top| == s + 1
    && Root(top) == Root(row) && Root(top[..f + 1]) == Root(row[..m])
    && SubProof(row, m, true) == (if f == 0 then [] else [top[f]]) + InclusionPath(top, f)
  }

  lemma StripOdd(row: seq<Digest>, m: nat)
    requires 0 < m < |row| && m % 2 == 1
    ensures StripsTo(row, m, row)
  {
    hide Root, InclusionPath, SubProof;
    SubProofOdd(row, m, true);
  }

  lemma StripEven(row: seq<Digest>, m: nat, top: seq<Digest>)
    requires 0 < m < |row| && m % 2 == 0
    requires StripsTo(PairUp(row), m / 2, top)
    ensures StripsTo(row, m, top)
  {
    hide Root, InclusionPath, SubProof;
    RootByLevels(row);
    RootByLevels(row[..m]);
    PairUpSplit(row, m);
    SubProofEven(row, m, true);
    assert (m - 1) / 2 == m / 2 - 1 && (|row| - 1) / 2 == |PairUp(row)| - 1;
  }

  lemma {:induction false} StripRow(row: seq<Digest>, m: nat) returns (top: seq<Digest>)
    requires 0 < m < |row|
    ensures StripsTo(row, m, top)
    decreases |row|
  {
    hide StripsTo;
    if m % 2 == 1 {
      top := row;
      StripOdd(row, m);
    } else {
      top := StripRow(PairUp(row), m / 2);
      StripEven(row, m, top);
    }
  }

  /** For the true new root, `VerifyConsistency` accepts exactly the root of the old prefix
      together with the proof that the log generates: it is complete, it is sound, and proofs
      are unique. */
  lemma {:induction false} ConsistencyExact(leaves: seq<Digest>, oldSize: nat, oldRoot: Digest, proof: seq<Digest>)
    requires 0 < oldSize <= |leaves|
    ensures ConsistencyAccepts(oldSize, |leaves|, oldRoot, Root(leaves), proof)
        <==> oldRoot == Root(leaves[..oldSize]) && Some(proof) == ConsistencyProof(leaves, oldSize)
  {
    if oldSize == |leaves| {
      assert leaves[..oldSize] == leaves;
    } else {
      var top := StripRow(leaves, oldSize);
      var (f, s) := Strip(oldSize - 1, |leaves| - 1);
      if f == 0 {
        AcceptsPowerOfTwo(leaves, oldSize, oldRoot, proof, top);
      } else {
        AcceptsOtherSize(leaves, oldSize, oldRoot, proof, top);
      }
    }
  }

  lemma AcceptsPowerOfTwo(leaves: seq<Digest>, oldSize: nat, oldRoot: Digest, proof: seq<Digest>, top: seq<Digest>)
    requires 0 < oldSize < |leaves| && StripsTo(leaves, oldSize, top)
    requires Strip(oldSize - 1, |leaves| - 1).0 == 0
    ensures ConsistencyAccepts(oldSize, |leaves|, oldRoot, Root(leaves), proof)
        <==> oldRoot == Root(leaves[..oldSize]) && proof == SubProof(leaves, oldSize, true)
  {
    hide Climb, SubProof, Strip, LargestPow2Below;
    ClimbExact(top, 0, oldRoot, oldRoot, proof);
    assert top[..0] + [oldRoot] == [oldRoot] && top[..1] == [top[0]];
  }

  lemma AcceptsOtherSize(leaves: seq<Digest>, oldSize: nat, oldRoot: Digest, proof: seq<Digest>, top: seq<Digest>)
    requires 0 < oldSize < |leaves| && StripsTo(leaves, oldSize, top)
    requires Strip(oldSize - 1, |leaves| - 1).0 != 0
    ensures ConsistencyAccepts(oldSize, |leaves|, oldRoot, Root(leaves), proof)
        <==> oldRoot == Root(leaves[..oldSize]) && proof == SubProof(leaves, oldSize, true)
  {
    hide Climb, SubProof, Strip, Root, InclusionPath;
    var f := Strip(oldSize - 1, |leaves| - 1).0;
    if proof != [] {
      ClimbExact(top, f, proof[0], proof[0], proof[1..]);
      assert top[..f] + [top[f]] == top[..f + 1];
      assert proof == [proof[0]] + proof[1..];
    }
  }

  // ---------------------------------------------------------------------------------------
  // Consistency proofs on the wire
  // ---------------------------------------------------------------------------------------

  const MAX_V1_CONSISTENCY_LEAVES: nat := 16384

  datatype ConsistencyProofMessage = ConsistencyProofMessage(
    version: nat,
    oldTreeSize: nat,
    newTreeSize: nat,
    oldRoot: HashText,
    newRoot: HashText,
    auditPath: seq<HashText>)

  function ConsistencyVerdict(proof: ConsistencyProofMessage): Verdict {
    if proof.oldTreeSize == 0 || proof.oldTreeSize > proof.newTreeSize then Malformed
    else if DecodeAll(proof.auditPath).None? || proof.oldRoot.NotAHash? || proof.newRoot.NotAHash? then Malformed
    else
      var path := DecodeAll(proof.auditPath).value;
      if proof.version == 1 then
        if proof.newTreeSize > MAX_V1_CONSISTENCY_LEAVES || |path| != proof.newTreeSize then Malformed
        else Accepted(Root(path[..proof.oldTreeSize]) == proof.oldRoot.digest && Root(path) == proof.newRoot.digest)
      else if proof.version == 2 then
        Accepted(ConsistencyAccepts(proof.oldTreeSize, proof.newTreeSize, proof.oldRoot.digest, proof.newRoot.digest,
                                    path))
      else Malformed
  }

  method VerifyConsistencyProof(proof: ConsistencyProofMessage) returns (v: Verdict)
    ensures v == ConsistencyVerdict(proof)
  {
    if proof.oldTreeSize == 0 || proof.oldTreeSize > proof.newTreeSize {
      return Malformed;
    }
    var decoded := DecodeAll(proof.auditPath);
    if decoded.None? || proof.oldRoot.NotAHash? || proof.newRoot.NotAHash? {
      return Malformed;
    }
    var path := decoded.value;
    if proof.version == 1 {
      if proof.newTreeSize > MAX_V1_CONSISTENCY_LEAVES || |path| != proof.newTreeSize {
        return Malformed;
      }
      return Accepted(Root(path[..proof.oldTreeSize]) == proof.oldRoot.digest && Root(path) == proof.newRoot.digest);
    } else if proof.version == 2 {
      v := VerifyConsistency(proof.oldTreeSize, proof.newTreeSize, proof.oldRoot.digest, proof.newRoot.digest, path);
    } else {
      return Malformed;
    }
  }

  /** The compact proof that the log serves for two of its sizes. */
  function LogConsistency(leaves: seq<Digest>, oldSize: nat, newSize: nat): Option<ConsistencyProofMessage> {
    if oldSize == 0 || oldSize > newSize || newSize > |leaves| then None
    else
      var path := ConsistencyProof(leaves[..newSize], oldSize);
      if path.None? then None
      else Some(ConsistencyProofMessage(2, oldSize, newSize, Spell(Root(leaves[..oldSize])),
                                        Spell(Root(leaves[..newSize])),
                                        SpellAll(path.value)))
  }

  /** Every proof an honest log serves is accepted. */
  lemma HonestProofAccepted(leaves: seq<Digest>, oldSize: nat, newSize: nat)
    requires 0 < oldSize <= newSize <= |leaves|
    ensures LogConsistency(leaves, oldSize, newSize).Some?
    ensures ConsistencyVerdict(LogConsistency(leaves, oldSize, newSize).value) == Accepted(true)
  {
    var prefix := leaves[..newSize];
    var path := ConsistencyProof(prefix, oldSize).value;
    ConsistencyExact(prefix, oldSize, Root(leaves[..oldSize]), path);
    assert prefix[..oldSize] == leaves[..oldSize];
    DecodeSpelled(path);
    hide Root, ConsistencyAccepts, SubProof, SpellAll, DecodeAll;
  }

  /** Against the root of a log, in any spelling, a message is accepted exactly when its old root is
      that of the log's beginning and its path, in any spelling, is the generated proof in version 2,
      or all leaves of a log of at most 16384 in version 1. */
  lemma ConsistencyProofExact(leaves: seq<Digest>, proof: ConsistencyProofMessage)
    requires proof.newTreeSize == |leaves|
    requires proof.oldRoot.Spelled? && proof.newRoot.Spelled? && proof.newRoot.digest == Root(leaves)
    ensures ConsistencyVerdict(proof) == Accepted(true) <==>
            && 0 < proof.oldTreeSize <= |leaves| && proof.oldRoot.digest == Root(leaves[..proof.oldTreeSize])
            && DecodeAll(proof.auditPath).Some?
            && ((proof.version == 1 && |leaves| <= 16384 && DecodeAll(proof.auditPath).value == leaves)
                || (proof.version == 2
                    && DecodeAll(proof.auditPath) == ConsistencyProof(leaves, proof.oldTreeSize)))
  {
    hide Root, DecodeAll, ConsistencyAccepts, ConsistencyProof;
    var path := DecodeAll(proof.auditPath);
    if 0 < proof.oldTreeSize <= |leaves| && path.Some? {
      ConsistencyExact(leaves, proof.oldTreeSize, proof.oldRoot.digest, path.value);
      if |path.value| == |leaves| && Root(path.value) == Root(leaves) {
        RootInjective(path.value, leaves);
      }
    }
  }

  /** An accepted proof, of either version, forces the old root to be the root of a prefix of
      whatever log has the new root. */
  lemma AcceptedProofIsPrefix(proof: ConsistencyProofMessage, leaves: seq<Digest>)
    requires ConsistencyVerdict(proof) == Accepted(true)
    requires |leaves| == proof.newTreeSize && proof.newRoot.digest == Root(leaves)
    ensures 0 < proof.oldTreeSize <= |leaves|
    ensures proof.oldRoot.Spelled? && proof.oldRoot.digest == Root(leaves[..proof.oldTreeSize])
  {
    hide Root, ConsistencyAccepts, SubProof, DecodeAll;
    var path := DecodeAll(proof.auditPath).value;
    if proof.version == 1 {
      RootInjective(path, leaves);
    } else {
      ConsistencyExact(leaves, proof.oldTreeSize, proof.oldRoot.digest, path);
    }
  }

  /** Logs behind an accepted proof extend one another: nothing was rewritten or removed. */
  lemma LogsExtend(proof: ConsistencyProofMessage, oldLeaves: seq<Digest>, newLeaves: seq<Digest>)
    requires ConsistencyVerdict(proof) == Accepted(true)
    requires |oldLeaves| == proof.oldTreeSize && Root(oldLeaves) == proof.oldRoot.digest
    requires |newLeaves| == proof.newTreeSize && Root(newLeaves) == proof.newRoot.digest
    ensures oldLeaves <= newLeaves
  {
    AcceptedProofIsPrefix(proof, newLeaves);
    hide ConsistencyVerdict, Root;
    RootInjective(oldLeaves, newLeaves[..|oldLeaves|]);
  }
}
