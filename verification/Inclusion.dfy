/** Verification of Merkle inclusion proofs (RFC 6962 section 2.1.1), as run on an event's leaf
    against the root of a signed checkpoint.
  */
module Inclusion {
  import opened Merkle
  import opened Prelude

  function Rise(index: nat, last: nat): (r: (nat, nat))
    ensures r.0 == 0 || r.0 % 2 == 1
  {
    if index % 2 == 0 && index != 0 then Rise(index / 2, last / 2) else (index, last)
  }

  /** The hash and the remaining row width after reading the whole path. */
  function Fold(index: nat, last: nat, hash: Digest, path: seq<Digest>): (Digest, nat)
    decreases |path|
  {
    if path == [] then (hash, last)
    else if index % 2 == 1 || index == last then
      var (i, l) := Rise(index, last);
      Fold(i / 2, l / 2, Node(path[0], hash), path[1..])
    else
      Fold(index / 2, last / 2, Node(hash, path[0]), path[1..])
  }

  predicate InclusionAccepts(index: nat, treeSize: nat, leaf: Digest, root: Digest, path: seq<Digest>)
    requires index < treeSize
  {
    Fold(index, treeSize - 1, leaf, path) == (root, 0)
  }

  // ---------------------------------------------------------------------------------------
  // Paths of the right length: the fold is the climb of a consistency check
  // ---------------------------------------------------------------------------------------

  /** How many siblings lie between position `index` and the root. */
  function Height(index: nat, last: nat): nat
    requires index <= last
    decreases last
  {
    if last == 0 then 0
    else if index % 2 == 0 && index == last then Height(index / 2, last / 2)
    else 1 + Height(index / 2, last / 2)
  }

  /** Path elements beyond the root are hashed in from the left. */
  function Wrap(top: Digest, extra: seq<Digest>): Digest
    decreases |extra|
  {
    if extra == [] then top else Wrap(Node(extra[0], top), extra[1..])
  }

  lemma {:induction false} FoldPromoted(index: nat, last: nat, hash: Digest, path: seq<Digest>)
    requires 0 < index == last && index % 2 == 0 && path != []
    ensures Fold(index, last, hash, path) == Fold(index / 2, last / 2, hash, path)
  {
    assert Rise(index, last) == Rise(index / 2, last / 2);
  }

  lemma FoldAtRoot(hash: Digest, path: seq<Digest>)
    ensures Fold(0, 0, hash, path) == (Wrap(hash, path), 0)
    decreases |path|
  {
    if path != [] {
      FoldAtRoot(Node(path[0], hash), path[1..]);
    }
  }

  lemma {:induction false} FoldTooShort(index: nat, last: nat, hash: Digest, path: seq<Digest>)
    requires index <= last && |path| < Height(index, last)
    ensures Fold(index, last, hash, path).1 > 0
    decreases last
  {
    if path != [] {
      if index % 2 == 0 && index == last {
        FoldPromoted(index, last, hash, path);
        FoldTooShort(index / 2, last / 2, hash, path);
      } else if index % 2 == 1 {
        FoldTooShort(index / 2, last / 2, Node(path[0], hash), path[1..]);
      } else {
        FoldTooShort(index / 2, last / 2, Node(hash, path[0]), path[1..]);
      }
    }
  }

  lemma {:induction false} FoldClimbs(index: nat, last: nat, hash: Digest, path: seq<Digest>)
    requires index <= last && |path| >= Height(index, last)
    ensures var h := Height(index, last);
            var climbed := Climb(index, last, hash, hash, path[..h]);
            && climbed.Some?
            && Fold(index, last, hash, path) == (Wrap(climbed.value.1, path[h..]), 0)
    decreases last
  {
    var h := Height(index, last);
    if last == 0 {
      FoldAtRoot(hash, path);
      assert path[0..] == path;
    } else if index % 2 == 0 && index == last {
      FoldClimbs(index / 2, last / 2, hash, path);
      if path != [] {
        FoldPromoted(index, last, hash, path);
      } else {
        PromotedToRoot(index);
      }
    } else {
      var up := if index % 2 == 1 then Node(path[0], hash) else Node(hash, path[0]);
      FoldClimbs(index / 2, last / 2, up, path[1..]);
      assert path[1..][..h - 1] == path[..h][1..] && path[1..][h - 1..] == path[h..];
      ClimbIgnoresOld(index / 2, last / 2, up, if index % 2 == 1 then up else hash, up, path[..h][1..]);
    }
  }

  lemma {:induction false} PromotedToRoot(index: nat)
    requires index > 0
    ensures Height(index, index) > 0
  {
    if index % 2 == 0 {
      PromotedToRoot(index / 2);
    }
  }

  lemma {:induction false} ClimbIgnoresOld(f: nat, s: nat, old1: Digest, old2: Digest, newHash: Digest,
          proof: seq<Digest>)
    requires f <= s
    ensures var a := Climb(f, s, old1, newHash, proof);
            var b := Climb(f, s, old2, newHash, proof);
            a.Some? == b.Some? && (a.Some? ==> a.value.1 == b.value.1)
    decreases s
  {
    if s > 0 {
      if f % 2 == 0 && f == s {
        ClimbIgnoresOld(f / 2, s / 2, old1, old2, newHash, proof);
      } else if proof != [] {
        if f % 2 == 1 {
          ClimbIgnoresOld(f / 2, s / 2, Node(proof[0], old1), Node(proof[0], old2), Node(proof[0], newHash),
                          proof[1..]);
        } else {
          ClimbIgnoresOld(f / 2, s / 2, old1, old2, Node(newHash, proof[0]), proof[1..]);
        }
      }
    }
  }

  lemma {:induction false} ClimbLength(f: nat, s: nat, oldHash: Digest, newHash: Digest, proof: seq<Digest>)
    requires f <= s && Climb(f, s, oldHash, newHash, proof).Some?
    ensures |proof| == Height(f, s)
    decreases s
  {
    if s > 0 {
      if f % 2 == 0 && f == s {
        ClimbLength(f / 2, s / 2, oldHash, newHash, proof);
      } else if f % 2 == 1 {
        ClimbLength(f / 2, s / 2, Node(proof[0], oldHash), Node(proof[0], newHash), proof[1..]);
      } else {
        ClimbLength(f / 2, s / 2, oldHash, Node(newHash, proof[0]), proof[1..]);
      }
    }
  }

  // ---------------------------------------------------------------------------------------
  // Paths that are too long: the verifier does not count them, the shape of the tree does
  // ---------------------------------------------------------------------------------------

  /** The digest at position `index` of a tree of `size` leaves under `top`, if `top` is a term
      that deep. */
  function Dig(top: Digest, index: nat, size: nat): Option<Digest>
    requires index < size
    decreases size
  {
    if size == 1 then Some(top)
    else
      var k := LargestPow2Below(size);
      if !top.Node? then None
      else if index < k then Dig(top.left, index, k)
      else Dig(top.right, index - k, size - k)
  }

  function StepDown(up: Option<Digest>, index: nat, size: nat): Option<Digest> {
    if index % 2 == 0 && index + 1 == size then up
    else if up.None? || !up.value.Node? then None
    else if index % 2 == 1 then Some(up.value.right) else Some(up.value.left)
  }

  lemma {:induction false} DigByLevels(top: Digest, index: nat, size: nat)
    requires index < size && size >= 2
    ensures Dig(top, index, size) == StepDown(Dig(top, index / 2, (size + 1) / 2), index, size)
    decreases size
  {
    hide Dig, StepDown, LargestPow2Below;
    if size == 2 {
      DigSmall(top, index);
    } else {
      var k := LargestPow2Below(size);
      SplitHalves(size);
      DigUnfold(top, index, size, k);
      DigUnfold(top, index / 2, (size + 1) / 2, k / 2);
      if !top.Node? {
        StepDownNone(index, size);
      } else if index < k {
        DigByLevels(top.left, index, k);
        StepDownLeft(Dig(top.left, index / 2, k / 2), index, size, k);
      } else {
        if size - k >= 2 {
          DigByLevels(top.right, index - k, size - k);
        } else {
          DigOne(top.right);
        }
        StepDownRight(Dig(top.right, (index - k) / 2, (size - k + 1) / 2), index, size, k);
        assert index / 2 - k / 2 == (index - k) / 2 && (size + 1) / 2 - k / 2 == (size - k + 1) / 2;
      }
    }
  }

  lemma StepDownNone(index: nat, size: nat)
    ensures StepDown(None, index, size) == None
  {
  }

  lemma StepDownLeft(up: Option<Digest>, index: nat, size: nat, k: nat)
    requires index < k < size && k % 2 == 0
    ensures StepDown(up, index, size) == StepDown(up, index, k)
  {
  }

  lemma StepDownRight(up: Option<Digest>, index: nat, size: nat, k: nat)
    requires k <= index < size && k % 2 == 0
    ensures StepDown(up, index, size) == StepDown(up, index - k, size - k)
    ensures index - k + 1 == size - k == 1 ==> StepDown(up, index, size) == up
  {
  }

  lemma DigSmall(top: Digest, index: nat)
    requires index < 2
    ensures Dig(top, index, 2) == StepDown(Dig(top, 0, 1), index, 2)
  {
  }

  lemma DigOne(top: Digest)
    ensures Dig(top, 0, 1) == Some(top)
  {
  }

  lemma DigUnfold(top: Digest, index: nat, size: nat, k: nat)
    requires index < size && size >= 2 && k == LargestPow2Below(size)
    ensures Dig(top, index, size) == (if !top.Node? then None
                                      else if index < k then Dig(top.left, index, k)
                                      else Dig(top.right, index - k, size - k))
  {
  }

  lemma ClimbStep(f: nat, s: nat, oldHash: Digest, newHash: Digest, proof: seq<Digest>)
    requires f <= s && s > 0 && Climb(f, s, oldHash, newHash, proof).Some?
    ensures f / 2 <= s / 2
    ensures Climb(f, s, oldHash, newHash, proof)
            == if f % 2 == 0 && f == s then Climb(f / 2, s / 2, oldHash, newHash, proof)
               else if f % 2 == 1 then Climb(f / 2, s / 2, Node(proof[0], oldHash), Node(proof[0], newHash), proof[1..])
               else Climb(f / 2, s / 2, oldHash, Node(newHash, proof[0]), proof[1..])
    ensures (f % 2 == 0 && f == s) || proof != []
  {
  }

  lemma DigLower(top: Digest, f: nat, s: nat, up: Digest)
    requires f <= s && s > 0 && Dig(top, f / 2, s / 2 + 1) == Some(up)
    ensures Dig(top, f, s + 1) == StepDown(Some(up), f, s + 1)
  {
    hide *;
    DigByLevels(top, f, s + 1);
    assert (s + 2) / 2 == s / 2 + 1;
  }

  /** A climb builds a term that has the starting hash at its own position. */
  lemma {:induction false} ClimbBuilds(f: nat, s: nat, oldHash: Digest, newHash: Digest, proof: seq<Digest>)
    requires f <= s && Climb(f, s, oldHash, newHash, proof).Some?
    ensures Dig(Climb(f, s, oldHash, newHash, proof).value.1, f, s + 1) == Some(newHash)
    decreases s
  {
    if s > 0 {
      hide Dig, Climb;
      var top := Climb(f, s, oldHash, newHash, proof).value.1;
      ClimbStep(f, s, oldHash, newHash, proof);
      if f % 2 == 0 && f == s {
        ClimbBuilds(f / 2, s / 2, oldHash, newHash, proof);
        DigLower(top, f, s, newHash);
      } else if f % 2 == 1 {
        ClimbBuilds(f / 2, s / 2, Node(proof[0], oldHash), Node(proof[0], newHash), proof[1..]);
        DigLower(top, f, s, Node(proof[0], newHash));
      } else {
        ClimbBuilds(f / 2, s / 2, oldHash, Node(newHash, proof[0]), proof[1..]);
        DigLower(top, f, s, Node(newHash, proof[0]));
      }
    } else {
      DigOne(newHash);
    }
  }

  ghost predicate AllLeaves(leaves: seq<Digest>) {
    forall i | 0 <= i < |leaves| :: leaves[i].Leaf?
  }

  lemma AllLeavesParts(leaves: seq<Digest>, k: nat)
    requires AllLeaves(leaves) && k <= |leaves|
    ensures AllLeaves(leaves[..k]) && AllLeaves(leaves[k..])
    ensures |leaves| == 1 ==> Root(leaves).Leaf?
  {
  }

  /** `part` is the size of a proper right-hand subtree on the right edge of a tree of `size`. */
  ghost predicate OnRightEdge(size: nat, part: nat)
    decreases size
  {
    size >= 2 && (part == size - LargestPow2Below(size) || OnRightEdge(size - LargestPow2Below(size), part))
  }

  lemma {:induction false} RightEdgeBound(size: nat, part: nat)
    requires OnRightEdge(size, part)
    ensures 0 < part <= size - LargestPow2Below(size)
    decreases size
  {
    var rest := size - LargestPow2Below(size);
    if part != rest {
      RightEdgeBound(rest, part);
    }
  }

  lemma {:induction false} RightEdgeNext(size: nat, part: nat)
    requires (part == size || OnRightEdge(size, part)) && part >= 2
    ensures OnRightEdge(size, part - LargestPow2Below(part))
    decreases size
  {
    if part != size {
      var rest := size - LargestPow2Below(size);
      RightEdgeNext(rest, part);
    }
  }

  predicate IsPow2(k: nat) {
    k == 1 || (k >= 2 && k % 2 == 0 && IsPow2(k / 2))
  }

  lemma {:induction false} FloorIsPow2(x: nat)
    requires x > 0
    ensures IsPow2(FloorPow2(x))
  {
    if x > 1 {
      FloorIsPow2(x / 2);
    }
  }

  lemma BelowIsPow2(n: nat)
    requires n >= 2
    ensures IsPow2(LargestPow2Below(n))
  {
    FloorIsPow2(n - 1);
  }

  lemma {:induction false} HalfOfPow2(k: nat)
    requires IsPow2(k) && k >= 2
    ensures LargestPow2Below(k) == k / 2 && IsPow2(k / 2) && k % 2 == 0
  {
    if k > 2 {
      HalfOfPow2(k / 2);
      SplitHalves(k);
      assert (k + 1) / 2 == k / 2;
    }
  }

  /** A perfect tree has no leaf at the depth of a larger perfect tree. */
  lemma {:induction false} PerfectTooShallow(leaves: seq<Digest>, index: nat, size: nat)
    requires IsPow2(|leaves|) && IsPow2(size) && |leaves| < size && index < size
    requires AllLeaves(leaves)
    ensures Dig(Root(leaves), index, size) == None
    decreases |leaves|
  {
    hide *;
    PowPositive(|leaves|);
    HalfOfPow2(size);
    var k := size / 2;
    DigUnfold(Root(leaves), index, size, k);
    AllLeavesParts(leaves, |leaves| / 2);
    if |leaves| >= 2 {
      HalfOfPow2(|leaves|);
      var h := |leaves| / 2;
      RootUnfold(leaves, h);
      if index < k {
        PerfectTooShallow(leaves[..h], index, k);
      } else {
        PerfectTooShallow(leaves[h..], index - k, k);
      }
    }
  }

  lemma PowPositive(k: nat)
    requires IsPow2(k)
    ensures k >= 1
  {
  }

  /** No right-edge subtree of a tree has a leaf hash where the whole tree has one. */
  lemma {:induction false} EdgeDoesNotFit(leaves: seq<Digest>, index: nat, size: nat)
    requires index < size && OnRightEdge(size, |leaves|) && AllLeaves(leaves)
    ensures Dig(Root(leaves), index, size) == None
    decreases size
  {
    hide *;
    RightEdgeBound(size, |leaves|);
    var k := LargestPow2Below(size);
    DigUnfold(Root(leaves), index, size, k);
    AllLeavesParts(leaves, 1);
    if |leaves| >= 2 {
      var h := LargestPow2Below(|leaves|);
      RootUnfold(leaves, h);
      AllLeavesParts(leaves, h);
      if index < k {
        BelowIsPow2(size);
        BelowIsPow2(|leaves|);
        PerfectTooShallow(leaves[..h], index, k);
      } else {
        RightEdgeRest(size, |leaves|);
        RightEdgeNext(size - k, |leaves|);
        EdgeDoesNotFit(leaves[h..], index - k, size - k);
      }
    }
  }

  lemma RightEdgeRest(size: nat, part: nat)
    requires OnRightEdge(size, part)
    ensures part == size - LargestPow2Below(size) || OnRightEdge(size - LargestPow2Below(size), part)
  {
  }

  lemma {:induction false} WrapOutermost(top: Digest, extra: seq<Digest>)
    requires extra != []
    ensures Wrap(top, extra) == Node(extra[|extra| - 1], Wrap(top, extra[..|extra| - 1]))
    decreases |extra|
  {
    if |extra| > 1 {
      WrapOutermost(Node(extra[0], top), extra[1..]);
      assert extra[1..][..|extra| - 2] == extra[..|extra| - 1][1..];
    }
  }

  lemma {:induction false} NothingWrapped(leaves: seq<Digest>, index: nat, size: nat, top: Digest, extra: seq<Digest>)
    requires 0 < |leaves| && index < size && AllLeaves(leaves)
    requires if |leaves| == size then extra != [] else OnRightEdge(size, |leaves|)
    requires Wrap(top, extra) == Root(leaves)
    ensures Dig(top, index, size) == None
    decreases |extra|
  {
    hide *;
    if extra == [] {
      WrapNothing(top, extra);
      EdgeDoesNotFit(leaves, index, size);
    } else {
      WrapOutermost(top, extra);
      AllLeavesParts(leaves, 1);
      var k := LargestPow2Below(|leaves|);
      RootUnfold(leaves, k);
      AllLeavesParts(leaves, k);
      RightEdgeNext(size, |leaves|);
      RightEdgeBound(size, |leaves| - k);
      NothingWrapped(leaves[k..], index, size, top, extra[..|extra| - 1]);
    }
  }

  lemma HonestLength(leaves: seq<Digest>, index: nat)
    requires index < |leaves|
    ensures |InclusionPath(leaves, index)| == Height(index, |leaves| - 1)
  {
    var leaf, path := leaves[index], InclusionPath(leaves, index);
    ClimbExact(leaves, index, leaf, leaf, path);
    ClimbLength(index, |leaves| - 1, leaf, leaf, path);
  }

  /** Against the true root of a log of event hashes, the fold accepts exactly the leaf at the
      claimed index together with the path that the log generates. The claim may be any digest: an
      interior node or made-up bytes passed off as a leaf, with a path of any length, fail. */
  lemma InclusionExact(leaves: seq<Digest>, index: nat, leaf: Digest, path: seq<Digest>)
    requires index < |leaves| && AllLeaves(leaves)
    ensures InclusionAccepts(index, |leaves|, leaf, Root(leaves), path)
        <==> leaf == leaves[index] && path == InclusionPath(leaves, index)
  {
    hide *;
    var last := |leaves| - 1;
    var h := Height(index, last);
    AcceptsUnfold(index, |leaves|, leaf, Root(leaves), path);
    HonestLength(leaves, index);
    if |path| < h {
      FoldTooShort(index, last, leaf, path);
    } else {
      FoldClimbs(index, last, leaf, path);
      var climbed := Climb(index, last, leaf, leaf, path[..h]).value.1;
      if |path| > h {
        if Wrap(climbed, path[h..]) == Root(leaves) {
          ClimbBuilds(index, last, leaf, leaf, path[..h]);
          NothingWrapped(leaves, index, |leaves|, climbed, path[h..]);
        }
      } else {
        assert path[..h] == path;
        WrapNothing(climbed, path[h..]);
        ClimbReaches(leaves, index, leaf, path);
      }
    }
  }

  lemma AcceptsUnfold(index: nat, treeSize: nat, leaf: Digest, root: Digest, path: seq<Digest>)
    requires index < treeSize
    ensures InclusionAccepts(index, treeSize, leaf, root, path) <==> Fold(index, treeSize - 1, leaf, path) == (root, 0)
  {
  }

  lemma WrapNothing(top: Digest, extra: seq<Digest>)
    requires |extra| == 0
    ensures Wrap(top, extra) == top
  {
  }

  lemma ClimbReaches(leaves: seq<Digest>, index: nat, leaf: Digest, path: seq<Digest>)
    requires index < |leaves| && Climb(index, |leaves| - 1, leaf, leaf, path).Some?
    ensures Climb(index, |leaves| - 1, leaf, leaf, path).value.1 == Root(leaves)
        <==> leaf == leaves[index] && path == InclusionPath(leaves, index)
  {
    ClimbExact(leaves, index, leaf, leaf, path);
    hide Climb, Root, InclusionPath;
  }

  // ---------------------------------------------------------------------------------------
  // Inclusion proofs on the wire
  // ---------------------------------------------------------------------------------------

  datatype InclusionProofMessage = InclusionProofMessage(
    leafIndex: nat, treeSize: nat, leafHash: HashText, rootHash: HashText, auditPath: seq<HashText>)

  /** The computed root is compared as the text that the code writes for it. */
  function InclusionVerdict(proof: InclusionProofMessage): Verdict {
    if proof.leafIndex >= proof.treeSize then Malformed
    else if proof.leafHash.NotAHash? || DecodeAll(proof.auditPath).None? then Malformed
    else
      var (hash, last) := Fold(proof.leafIndex, proof.treeSize - 1, proof.leafHash.digest,
                               DecodeAll(proof.auditPath).value);
      Accepted(Spell(hash) == proof.rootHash && last == 0)
  }

  method VerifyInclusionProof(proof: InclusionProofMessage) returns (v: Verdict)
    ensures v == InclusionVerdict(proof)
  {
    if proof.treeSize == 0 || proof.leafIndex >= proof.treeSize || proof.leafHash.NotAHash? {
      return Malformed;
    }
    var hash, index, last := proof.leafHash.digest, proof.leafIndex, proof.treeSize - 1;
    ghost var goal := DecodeAll(proof.auditPath);
    ghost var result := if goal.Some? then Fold(index, last, hash, goal.value) else (hash, last);
    assert proof.auditPath[0..] == proof.auditPath;
    for p := 0 to |proof.auditPath|
      invariant 0 <= index && 0 <= last
      invariant DecodeAll(proof.auditPath[p..]).None? <==> goal.None?
      invariant goal.Some? ==> Fold(index, last, hash, DecodeAll(proof.auditPath[p..]).value) == result
    {
      var text := proof.auditPath[p];
      assert proof.auditPath[p..][1..] == proof.auditPath[p + 1..];
      if text.NotAHash? {
        return Malformed;
      }
      var sibling := text.digest;
      if goal.Some? {
        FoldStep(index, last, hash, sibling, DecodeAll(proof.auditPath[p + 1..]).value);
      }
      if index % 2 == 1 || index == last {
        hash := Node(sibling, hash);
        ghost var risen := Rise(index, last);
        while index % 2 == 0 && index != 0
          invariant 0 <= index && 0 <= last
          invariant Rise(index, last) == risen
          decreases index
        {
          index, last := index / 2, last / 2;
        }
      } else {
        hash := Node(hash, sibling);
      }
      index, last := index / 2, last / 2;
    }
    return Accepted(Spell(hash) == proof.rootHash && last == 0);
  }

  lemma FoldStep(index: nat, last: nat, hash: Digest, sibling: Digest, rest: seq<Digest>)
    ensures Fold(index, last, hash, [sibling] + rest)
            == if index % 2 == 1 || index == last then
                 Fold(Rise(index, last).0 / 2, Rise(index, last).1 / 2, Node(sibling, hash), rest)
               else Fold(index / 2, last / 2, Node(hash, sibling), rest)
  {
    assert ([sibling] + rest)[1..] == rest;
  }

  /** Whatever digest a proof claims as a leaf and whatever spelling of the true root it names, it
      is accepted exactly when that spelling is all lower case, the digest is the log's leaf at the
      claimed index and the path is the one that the log generates, in any spelling. */
  lemma InclusionProofExact(leaves: seq<Digest>, proof: InclusionProofMessage)
    requires AllLeaves(leaves) && proof.treeSize == |leaves|
    requires proof.leafHash.Spelled?
    requires proof.rootHash.Spelled? && proof.rootHash.digest == Root(leaves)
    ensures InclusionVerdict(proof) == Accepted(true) <==>
            proof.rootHash == Spell(Root(leaves)) && proof.leafIndex < |leaves|
            && proof.leafHash.digest == leaves[proof.leafIndex]
            && DecodeAll(proof.auditPath) == Some(InclusionPath(leaves, proof.leafIndex))
  {
    hide Root, Fold, InclusionPath, DecodeAll, AllLeaves;
    var path := DecodeAll(proof.auditPath);
    if proof.leafIndex < |leaves| && path.Some? {
      InclusionExact(leaves, proof.leafIndex, proof.leafHash.digest, path.value);
      AcceptsUnfold(proof.leafIndex, |leaves|, proof.leafHash.digest, Root(leaves), path.value);
    }
  }
}
