/** The authenticated state map: a sparse Merkle tree over 256-bit identifier hashes, with
    inclusion and non-inclusion proofs.

    A key is its 256 bits, most significant first, so that the byte order of the source's
    ordered map is the order of the bits. Hashes are symbolic; the all-zero empty leaf, leaf
    hashes and node hashes never coincide.
  */
module StateMap {
  import opened Prelude
  import Hex

  const DEPTH: nat := 256

  type Key = k: seq<bool> | |k| == DEPTH witness seq(DEPTH, _ => false)

  datatype IdentifierStatus = Registered | Revoked

  datatype StateMapValue = StateMapValue(latestEventHash: string, sequence: nat, status: IdentifierStatus)

  datatype SmtDigest =
    | Zero
    | SmtLeaf(key: Key, event: EventBytes, sequence: nat, status: IdentifierStatus)
    | SmtNode(left: SmtDigest, right: SmtDigest)
    | SmtChosen(bits: nat)

  /** The bytes a leaf hash commits to for an event hash: the decoded hex, or the text itself. */
  datatype EventBytes = EventBytes(bytes: seq<int>)

  function Codes(text: string): (codes: seq<int>)
    ensures |codes| == |text| && forall i | 0 <= i < |codes| :: codes[i] == text[i] as int
  {
    seq(|text|, i requires 0 <= i < |text| => text[i] as int)
  }

  function EventHashBytes(eventHash: string): EventBytes {
    var decoded := Hex.Decode(eventHash);
    if decoded.Some? then EventBytes(decoded.value) else EventBytes(Codes(eventHash))
  }

  function LeafHash(key: Key, value: StateMapValue): SmtDigest {
    SmtLeaf(key, EventHashBytes(value.latestEventHash), value.sequence, value.status)
  }

  function EmptyHash(depth: nat): SmtDigest
    requires depth <= DEPTH
    decreases DEPTH - depth
  {
    if depth == DEPTH then Zero else SmtNode(EmptyHash(depth + 1), EmptyHash(depth + 1))
  }

  datatype Entry = Entry(key: Key, value: StateMapValue)

  // ---------------------------------------------------------------------------------------
  // The ordered entries
  // ---------------------------------------------------------------------------------------

  predicate Less(a: Key, b: Key) {
    exists d | 0 <= d < DEPTH :: a[..d] == b[..d] && !a[d] && b[d]
  }

  ghost predicate Ordered(entries: seq<Entry>) {
    forall i, j | 0 <= i < j < |entries| :: Less(entries[i].key, entries[j].key)
  }

  ghost predicate SharePrefix(entries: seq<Entry>, key: Key, depth: nat)
    requires depth <= DEPTH
  {
    forall i | 0 <= i < |entries| :: entries[i].key[..depth] == key[..depth]
  }

  /** How many entries come before the first one whose bit at `depth` is set. */
  function PartitionPoint(entries: seq<Entry>, depth: nat): (p: nat)
    requires depth < DEPTH
    ensures p <= |entries|
    ensures forall i | 0 <= i < p :: !entries[i].key[depth]
    ensures p < |entries| ==> entries[p].key[depth]
  {
    if entries == [] || entries[0].key[depth] then 0 else 1 + PartitionPoint(entries[1..], depth)
  }

  lemma LessAtFirstDifference(a: Key, b: Key, depth: nat)
    requires Less(a, b) && depth < DEPTH && a[..depth] == b[..depth]
    ensures a[depth] ==> b[depth]
  {
    forall i | 0 <= i < depth ensures a[i] == b[i] {
      assert a[..depth][i] == b[..depth][i];
    }
    var d :| 0 <= d < DEPTH && a[..d] == b[..d] && !a[d] && b[d];
    if d > depth {
      assert a[..d][depth] == b[..d][depth];
    }
  }

  /** Within a subtree the partition point separates the left entries from the right ones. */
  lemma PartitionSplits(entries: seq<Entry>, key: Key, depth: nat)
    requires depth < DEPTH && Ordered(entries) && SharePrefix(entries, key, depth)
    ensures var p := PartitionPoint(entries, depth);
            && (forall e | e in entries[..p] :: !e.key[depth])
            && (forall e | e in entries[p..] :: e.key[depth])
            && Ordered(entries[..p]) && Ordered(entries[p..])
  {
    var p := PartitionPoint(entries, depth);
    forall i | p <= i < |entries|
      ensures entries[i].key[depth]
    {
      if i > p {
        LessAtFirstDifference(entries[p].key, entries[i].key, depth);
      }
    }
  }

  ghost predicate Holds(entries: seq<Entry>, key: Key, value: Option<StateMapValue>) {
    match value
    case None => forall i | 0 <= i < |entries| :: entries[i].key != key
    case Some(v) => exists i | 0 <= i < |entries| :: entries[i].key == key && SameLeaf(entries[i].value, v)
  }

  /** Two values that the leaf hash cannot tell apart. */
  predicate SameLeaf(a: StateMapValue, b: StateMapValue) {
    EventHashBytes(a.latestEventHash) == EventHashBytes(b.latestEventHash) && a.sequence == b.sequence
    && a.status == b.status
  }

  // ---------------------------------------------------------------------------------------
  // Roots, proofs and their verification
  // ---------------------------------------------------------------------------------------

  function SubtreeRoot(depth: nat, entries: seq<Entry>): SmtDigest
    requires depth <= DEPTH
    decreases DEPTH - depth
  {
    if entries == [] then EmptyHash(depth)
    else if depth == DEPTH then LeafHash(entries[0].key, entries[0].value)
    else
      var p := PartitionPoint(entries, depth);
      var left := if entries[..p] == [] then EmptyHash(depth + 1) else SubtreeRoot(depth + 1, entries[..p]);
      var right := if entries[p..] == [] then EmptyHash(depth + 1) else SubtreeRoot(depth + 1, entries[p..]);
      SmtNode(left, right)
  }

  /** Siblings from the root downwards. */
  function AuditPath(depth: nat, target: Key, entries: seq<Entry>): (path: seq<SmtDigest>)
    requires depth <= DEPTH
    ensures |path| == DEPTH - depth
    decreases DEPTH - depth
  {
    if depth == DEPTH then []
    else
      var p := PartitionPoint(entries, depth);
      if !target[depth] then
        [if entries[p..] == [] then EmptyHash(depth + 1) else SubtreeRoot(depth + 1, entries[p..])]
        + AuditPath(depth + 1, target, entries[..p])
      else
        [if entries[..p] == [] then EmptyHash(depth + 1) else SubtreeRoot(depth + 1, entries[..p])]
        + AuditPath(depth + 1, target, entries[p..])
  }

  function Reverse<T>(s: seq<T>): (r: seq<T>)
    ensures |r| == |s| && forall i | 0 <= i < |s| :: r[i] == s[|s| - 1 - i]
  {
    seq(|s|, i requires 0 <= i < |s| => s[|s| - 1 - i])
  }

  datatype StateMapProof = StateMapProof(key: Key, value: Option<StateMapValue>, auditPath: seq<SmtDigest>)

  function StartHash(key: Key, value: Option<StateMapValue>): SmtDigest {
    match value
    case Some(v) => LeafHash(key, v)
    case None => EmptyHash(DEPTH)
  }

  /** The hash at `depth` that a path, read from the leaf upwards, leads to. */
  function PathHash(depth: nat, key: Key, start: SmtDigest, path: seq<SmtDigest>): SmtDigest
    requires depth <= DEPTH && |path| == DEPTH
    decreases DEPTH - depth
  {
    if depth == DEPTH then start
    else
      var child, sibling := PathHash(depth + 1, key, start, path), path[DEPTH - 1 - depth];
      if !key[depth] then SmtNode(child, sibling) else SmtNode(sibling, child)
  }

  predicate ProofAccepts(proof: StateMapProof, root: SmtDigest) {
    && |proof.auditPath| == DEPTH
    && PathHash(0, proof.key, StartHash(proof.key, proof.value), proof.auditPath) == root
  }

  /** A hash and a key as text on the wire: 64 hex digits in one of their upper- and lower-case
      spellings, 0 being all lower case, or text that does not decode. */
  datatype HashText = Spelled(digest: SmtDigest, spelling: nat) | NotAHash(text: string)

  datatype KeyText = SpelledKey(key: Key, spelling: nat) | NotAKey(text: string)

  datatype ProofMessage = ProofMessage(keyHash: KeyText, value: Option<StateMapValue>, auditPath: seq<HashText>)

  function DecodePath(path: seq<HashText>): (digests: Option<seq<SmtDigest>>)
    ensures digests.Some? ==>
              && |digests.value| == |path|
              && forall i | 0 <= i < |path| :: path[i].Spelled? && digests.value[i] == path[i].digest
    ensures digests.None? ==> exists i | 0 <= i < |path| :: path[i].NotAHash?
  {
    if path == [] then Some([])
    else
      var front, last := DecodePath(path[..|path| - 1]), path[|path| - 1];
      if front.None? || last.NotAHash? then None else Some(front.value + [last.digest])
  }

  function SpellPath(path: seq<SmtDigest>): (texts: seq<HashText>)
    ensures |texts| == |path| && forall i | 0 <= i < |path| :: texts[i] == Spelled(path[i], 0)
  {
    seq(|path|, i requires 0 <= i < |path| => Spelled(path[i], 0))
  }

  /** The proof behind the text, if all of it decodes. */
  function DecodeMessage(m: ProofMessage): Option<StateMapProof> {
    var path := DecodePath(m.auditPath);
    if m.keyHash.NotAKey? || path.None? then None else Some(StateMapProof(m.keyHash.key, m.value, path.value))
  }

  function WriteProof(proof: StateMapProof): ProofMessage {
    ProofMessage(SpelledKey(proof.key, 0), proof.value, SpellPath(proof.auditPath))
  }

  lemma DecodeWritten(proof: StateMapProof)
    ensures DecodeMessage(WriteProof(proof)) == Some(proof)
  {
    var path := DecodePath(SpellPath(proof.auditPath));
    assert path.value == proof.auditPath;
  }

  /** The computed root is compared as the text that the code writes for it. */
  predicate MessageAccepts(m: ProofMessage, root: HashText) {
    var proof := DecodeMessage(m);
    && proof.Some? && |proof.value.auditPath| == DEPTH
    && Spelled(PathHash(0, proof.value.key, StartHash(proof.value.key, proof.value.value), proof.value.auditPath), 0)
         == root
  }

  method VerifyProof(m: ProofMessage, expectedRoot: HashText) returns (ok: bool)
    ensures ok <==> MessageAccepts(m, expectedRoot)
  {
    hide LeafHash, EmptyHash;
    if |m.auditPath| != DEPTH {
      return false;
    }
    if m.keyHash.NotAKey? {
      return false;
    }
    var key := m.keyHash.key;
    var current := StartHash(key, m.value);
    ghost var path := DecodePath(m.auditPath);
    for step := 0 to |m.auditPath|
      invariant forall i | 0 <= i < step :: m.auditPath[i].Spelled?
      invariant path.Some? ==> current == PathHash(DEPTH - step, key, StartHash(key, m.value), path.value)
    {
      var depth := DEPTH - 1 - step;
      if m.auditPath[step].NotAHash? {
        return false;
      }
      var sibling := m.auditPath[step].digest;
      if !key[depth] {
        current := SmtNode(current, sibling);
      } else {
        current := SmtNode(sibling, current);
      }
    }
    return Spelled(current, 0) == expectedRoot;
  }

  lemma SubtreeUnfold(depth: nat, entries: seq<Entry>)
    requires depth < DEPTH
    ensures var p := PartitionPoint(entries, depth);
            SubtreeRoot(depth, entries)
              == SmtNode(SubtreeRoot(depth + 1, entries[..p]), SubtreeRoot(depth + 1, entries[p..]))
  {
  }

  /** Paths of the honest tree below `depth`, read from the leaf upwards. */
  ghost predicate PathIs(depth: nat, path: seq<SmtDigest>, audit: seq<SmtDigest>)
    requires depth <= DEPTH && |path| == DEPTH
  {
    path[..DEPTH - depth] == Reverse(audit)
  }

  lemma LeafExact(key: Key, value: Option<StateMapValue>, entries: seq<Entry>)
    requires Ordered(entries) && SharePrefix(entries, key, DEPTH)
    ensures StartHash(key, value) == SubtreeRoot(DEPTH, entries) <==> Holds(entries, key, value)
  {
    assert key[..DEPTH] == key;
    forall i | 0 <= i < |entries| ensures entries[i].key == key {
      assert entries[i].key[..DEPTH] == entries[i].key;
    }
    LoneEntry(entries, key);
  }

  lemma LoneEntry(entries: seq<Entry>, key: Key)
    requires Ordered(entries) && forall i | 0 <= i < |entries| :: entries[i].key == key
    ensures |entries| <= 1
  {
    FirstTwoDiffer(entries);
  }

  lemma FirstTwoDiffer(entries: seq<Entry>)
    requires Ordered(entries)
    ensures |entries| > 1 ==> entries[0].key != entries[1].key
  {
    if |entries| > 1 {
      assert Less(entries[0].key, entries[1].key);
    }
  }

  lemma SideIsSubtree(depth: nat, key: Key, entries: seq<Entry>)
    requires depth < DEPTH && Ordered(entries) && SharePrefix(entries, key, depth)
    ensures var p := PartitionPoint(entries, depth);
            var side := if key[depth] then entries[p..] else entries[..p];
            Ordered(side) && SharePrefix(side, key, depth + 1)
  {
    PartitionSplits(entries, key, depth);
    hide Ordered, Less;
    var p := PartitionPoint(entries, depth);
    var side := if key[depth] then entries[p..] else entries[..p];
    forall i | 0 <= i < |side| ensures side[i].key[..depth + 1] == key[..depth + 1] {
      assert side[i] in side && side[i] == entries[if key[depth] then p + i else i];
      ExtendPrefix(side[i].key, key, depth);
    }
  }

  lemma ExtendPrefix(a: Key, b: Key, depth: nat)
    requires depth < DEPTH && a[..depth] == b[..depth] && a[depth] == b[depth]
    ensures a[..depth + 1] == b[..depth + 1]
  {
    assert a[..depth + 1] == a[..depth] + [a[depth]] && b[..depth + 1] == b[..depth] + [b[depth]];
  }

  lemma SideHasKey(depth: nat, key: Key, entries: seq<Entry>, e: Entry)
    requires depth < DEPTH && Ordered(entries) && SharePrefix(entries, key, depth) && e.key == key
    ensures var p := PartitionPoint(entries, depth);
            var side := if key[depth] then entries[p..] else entries[..p];
            e in entries <==> e in side
  {
    PartitionSplits(entries, key, depth);
    hide *;
    var p := PartitionPoint(entries, depth);
    assert entries == entries[..p] + entries[p..];
  }

  lemma HoldsAsMembership(entries: seq<Entry>, key: Key, value: Option<StateMapValue>)
    ensures Holds(entries, key, value)
        <==> match value
             case None => forall e | e in entries :: e.key != key
             case Some(v) => exists e | e in entries :: e.key == key && SameLeaf(e.value, v)
  {
    hide SameLeaf;
    match value
    case None =>
    case Some(v) =>
      if e :| e in entries && e.key == key && SameLeaf(e.value, v) {
        var i :| 0 <= i < |entries| && entries[i] == e;
      }
  }

  lemma HoldsBelow(depth: nat, key: Key, value: Option<StateMapValue>, entries: seq<Entry>)
    requires depth < DEPTH && Ordered(entries) && SharePrefix(entries, key, depth)
    ensures var p := PartitionPoint(entries, depth);
            var side := if key[depth] then entries[p..] else entries[..p];
            Holds(entries, key, value) <==> Holds(side, key, value)
  {
    hide *;
    var p := PartitionPoint(entries, depth);
    var side := if key[depth] then entries[p..] else entries[..p];
    HoldsAsMembership(entries, key, value);
    HoldsAsMembership(side, key, value);
    forall e: Entry | e.key == key ensures e in entries <==> e in side {
      SideHasKey(depth, key, entries, e);
    }
  }

  /** At one depth: the path leads to the subtree's own hash exactly when the claim about the key
      is true of the subtree and the path is the honest one. */
  lemma {:induction false} SubtreeExact(depth: nat, key: Key, value: Option<StateMapValue>, entries: seq<Entry>,
          path: seq<SmtDigest>)
    requires depth <= DEPTH && |path| == DEPTH
    requires Ordered(entries) && SharePrefix(entries, key, depth)
    ensures PathHash(depth, key, StartHash(key, value), path) == SubtreeRoot(depth, entries)
        <==> Holds(entries, key, value) && PathIs(depth, path, AuditPath(depth, key, entries))
    decreases DEPTH - depth
  {
    if depth == DEPTH {
      LeafExact(key, value, entries);
      assert path[..0] == Reverse(AuditPath(depth, key, entries));
    } else {
      var p := PartitionPoint(entries, depth);
      var side := if key[depth] then entries[p..] else entries[..p];
      SideIsSubtree(depth, key, entries);
      HoldsBelow(depth, key, value, entries);
      SubtreeUnfold(depth, entries);
      SubtreeExact(depth + 1, key, value, side, path);
      PathStep(depth, key, entries, path);
      hide Holds, SubtreeRoot, AuditPath, PathIs, Ordered, SharePrefix, PartitionPoint, StartHash;
    }
  }

  lemma AuditUnfold(depth: nat, key: Key, entries: seq<Entry>)
    requires depth < DEPTH
    ensures var p := PartitionPoint(entries, depth);
            AuditPath(depth, key, entries)
            == if key[depth] then [SubtreeRoot(depth + 1, entries[..p])] + AuditPath(depth + 1, key, entries[p..])
               else [SubtreeRoot(depth + 1, entries[p..])] + AuditPath(depth + 1, key, entries[..p])
  {
  }

  lemma ReversePrefix(path: seq<SmtDigest>, n: nat, top: SmtDigest, below: seq<SmtDigest>)
    requires 0 < n <= |path| && |below| == n - 1
    ensures path[..n] == Reverse([top] + below) <==> path[n - 1] == top && path[..n - 1] == Reverse(below)
  {
    assert Reverse([top] + below) == Reverse(below) + [top];
    assert path[..n] == path[..n - 1] + [path[n - 1]];
  }

  lemma PathStep(depth: nat, key: Key, entries: seq<Entry>, path: seq<SmtDigest>)
    requires depth < DEPTH && |path| == DEPTH
    ensures var p := PartitionPoint(entries, depth);
            var (side, other) := if key[depth] then (entries[p..], entries[..p]) else (entries[..p], entries[p..]);
            PathIs(depth, path, AuditPath(depth, key, entries))
            <==> path[DEPTH - 1 - depth] == SubtreeRoot(depth + 1, other)
                 && PathIs(depth + 1, path, AuditPath(depth + 1, key, side))
  {
    hide SubtreeRoot, AuditPath, PartitionPoint;
    var p := PartitionPoint(entries, depth);
    var (side, other) := if key[depth] then (entries[p..], entries[..p]) else (entries[..p], entries[p..]);
    AuditUnfold(depth, key, entries);
    ReversePrefix(path, DEPTH - depth, SubtreeRoot(depth + 1, other), AuditPath(depth + 1, key, side));
  }

  // ---------------------------------------------------------------------------------------
  // Lookup and insertion, and what a root commits to
  // ---------------------------------------------------------------------------------------

  function Lookup(entries: seq<Entry>, key: Key): Option<StateMapValue> {
    if entries == [] then None
    else if entries[0].key == key then Some(entries[0].value)
    else Lookup(entries[1..], key)
  }

  function Inserted(entries: seq<Entry>, key: Key, value: StateMapValue): seq<Entry> {
    if entries == [] || Less(key, entries[0].key) then [Entry(key, value)] + entries
    else if entries[0].key == key then [Entry(key, value)] + entries[1..]
    else [entries[0]] + Inserted(entries[1..], key, value)
  }

  lemma {:induction false} FirstDifference(a: Key, b: Key, n: nat) returns (d: nat)
    requires n <= DEPTH && a[..n] != b[..n]
    ensures d < n && a[..d] == b[..d] && a[d] != b[d]
  {
    assert n > 0;
    if a[..n - 1] == b[..n - 1] {
      d := n - 1;
      assert a[..n] == a[..n - 1] + [a[n - 1]] && b[..n] == b[..n - 1] + [b[n - 1]];
    } else {
      d := FirstDifference(a, b, n - 1);
    }
  }

  lemma LessTotal(a: Key, b: Key)
    ensures a == b || Less(a, b) || Less(b, a)
  {
    if a != b {
      assert a[..DEPTH] == a && b[..DEPTH] == b;
      var d := FirstDifference(a, b, DEPTH);
    }
  }

  lemma LessTransitive(a: Key, b: Key, c: Key)
    requires Less(a, b) && Less(b, c)
    ensures Less(a, c)
  {
    var d :| 0 <= d < DEPTH && a[..d] == b[..d] && !a[d] && b[d];
    var e :| 0 <= e < DEPTH && b[..e] == c[..e] && !b[e] && c[e];
    var f := if d < e then d else e;
    assert a[..f] == b[..f] == c[..f] by {
      assert a[..f] == a[..d][..f] && b[..f] == b[..d][..f] && b[..f] == b[..e][..f] && c[..f] == c[..e][..f];
    }
    if d < e {
      assert b[..e][d] == c[..e][d];
    } else if e < d {
      assert a[..d][e] == b[..d][e];
    }
  }

  lemma LessIrreflexive(a: Key)
    ensures !Less(a, a)
  {
  }

  lemma OrderedCons(head: Entry, tail: seq<Entry>)
    requires Ordered(tail) && forall e | e in tail :: Less(head.key, e.key)
    ensures Ordered([head] + tail)
  {
    hide Less;
    var r := [head] + tail;
    forall i, j | 0 <= i < j < |r| ensures Less(r[i].key, r[j].key) {
      if i > 0 {
        assert r[i] == tail[i - 1] && r[j] == tail[j - 1];
      }
    }
  }

  lemma OrderedHead(entries: seq<Entry>)
    requires Ordered(entries) && entries != []
    ensures Ordered(entries[1..]) && forall e | e in entries[1..] :: Less(entries[0].key, e.key)
  {
    hide Less;
  }

  lemma {:induction false} InsertedOrdered(entries: seq<Entry>, key: Key, value: StateMapValue)
    requires Ordered(entries)
    ensures Ordered(Inserted(entries, key, value))
    ensures forall e | e in Inserted(entries, key, value) :: e in entries || e == Entry(key, value)
  {
    hide Less, Ordered;
    if entries == [] {
      OrderedNone();
      OrderedCons(Entry(key, value), []);
    } else {
      OrderedHead(entries);
      LessTotal(key, entries[0].key);
      if Less(key, entries[0].key) {
        forall e | e in entries[1..] ensures Less(key, e.key) {
          LessTransitive(key, entries[0].key, e.key);
        }
        OrderedCons(Entry(key, value), entries);
      } else if entries[0].key == key {
        OrderedCons(Entry(key, value), entries[1..]);
      } else {
        InsertedOrdered(entries[1..], key, value);
        OrderedCons(entries[0], Inserted(entries[1..], key, value));
      }
    }
  }

  lemma OrderedNone()
    ensures Ordered([])
  {
  }

  lemma {:induction false} InsertedLookup(entries: seq<Entry>, key: Key, value: StateMapValue, other: Key)
    ensures Lookup(Inserted(entries, key, value), other)
         == if other == key then Some(value) else Lookup(entries, other)
  {
    if entries != [] && !Less(key, entries[0].key) && entries[0].key != key {
      InsertedLookup(entries[1..], key, value, other);
    } else if entries != [] && Less(key, entries[0].key) {
      assert ([Entry(key, value)] + entries)[1..] == entries;
    }
  }

  /** In an ordered map a claim about a key is a claim about its lookup. */
  lemma {:induction false} HoldsIsLookup(entries: seq<Entry>, key: Key, value: Option<StateMapValue>)
    requires Ordered(entries)
    ensures Holds(entries, key, value)
        <==> match Lookup(entries, key)
             case None => value.None?
             case Some(stored) => value.Some? && SameLeaf(stored, value.value)
  {
    if entries != [] {
      HoldsIsLookup(entries[1..], key, value);
      forall i | 0 < i < |entries| ensures entries[i] == entries[1..][i - 1] {}
      if entries[0].key == key {
        LessIrreflexive(key);
        assert forall i | 0 < i < |entries| :: Less(entries[0].key, entries[i].key);
      }
      hide SameLeaf, Less;
    }
  }

  /** Against the root of an ordered map, a proof is accepted exactly when it is the honest path
      and its claim - the value, or the absence of one - is what the map holds for the key, up to
      what a leaf hash commits to. */
  lemma ProofExact(proof: StateMapProof, entries: seq<Entry>)
    requires Ordered(entries)
    ensures ProofAccepts(proof, SubtreeRoot(0, entries))
        <==> && proof.auditPath == Reverse(AuditPath(0, proof.key, entries))
             && match Lookup(entries, proof.key)
                case None => proof.value.None?
                case Some(stored) => proof.value.Some? && SameLeaf(stored, proof.value.value)
  {
    HoldsIsLookup(entries, proof.key, proof.value);
    if |proof.auditPath| == DEPTH {
      SubtreeExact(0, proof.key, proof.value, entries, proof.auditPath);
      assert proof.auditPath[..DEPTH] == proof.auditPath;
    }
    hide SubtreeRoot, AuditPath, Holds, PathHash, StartHash, Lookup, SameLeaf;
  }

  /** The same on the wire: key and path in any spelling, the root in lower case only. */
  lemma MessageExact(m: ProofMessage, root: HashText, entries: seq<Entry>)
    requires Ordered(entries) && root.Spelled? && root.digest == SubtreeRoot(0, entries)
    ensures MessageAccepts(m, root) <==>
            && root.spelling == 0 && DecodeMessage(m).Some?
            && var proof := DecodeMessage(m).value;
            && proof.auditPath == Reverse(AuditPath(0, proof.key, entries))
            && match Lookup(entries, proof.key)
               case None => proof.value.None?
               case Some(stored) => proof.value.Some? && SameLeaf(stored, proof.value.value)
  {
    hide SubtreeRoot, AuditPath, PathHash, StartHash, Lookup, SameLeaf, DecodeMessage, Ordered;
    if DecodeMessage(m).Some? {
      ProofExact(DecodeMessage(m).value, entries);
    }
  }

  /** Equal roots mean equal maps, up to what a leaf hash commits to. */
  lemma RootDeterminesMap(a: seq<Entry>, b: seq<Entry>, key: Key)
    requires Ordered(a) && Ordered(b) && SubtreeRoot(0, a) == SubtreeRoot(0, b)
    ensures Lookup(a, key).Some? <==> Lookup(b, key).Some?
    ensures Lookup(a, key).Some? ==> SameLeaf(Lookup(a, key).value, Lookup(b, key).value)
  {
    hide SubtreeRoot, AuditPath, Lookup;
    var honest := StateMapProof(key, Lookup(a, key), Reverse(AuditPath(0, key, a)));
    ProofExact(honest, a);
    ProofExact(honest, b);
  }

  /** Event hashes in lower-case hex, as the log writes them, are committed to exactly. */
  lemma SameLeafIsEqual(a: StateMapValue, b: StateMapValue)
    requires Hex.IsLowerHex(a.latestEventHash) && Hex.IsLowerHex(b.latestEventHash)
    ensures SameLeaf(a, b) <==> a == b
  {
    Hex.EncodeDecode(a.latestEventHash);
    Hex.EncodeDecode(b.latestEventHash);
  }

  lemma CodesInjective(a: string, b: string)
    requires Codes(a) == Codes(b)
    ensures a == b
  {
    forall i | 0 <= i < |a| ensures a[i] == b[i] {
      assert Codes(a)[i] == Codes(b)[i];
    }
  }

  /** What a leaf commits to, for all event hashes: sequence, status, and the text - up to case
      when both are hex, exactly when neither is; and text that is not hex is confused with the
      hex of its own bytes. */
  lemma SameLeafExact(a: StateMapValue, b: StateMapValue)
    ensures SameLeaf(a, b) <==>
            && a.sequence == b.sequence && a.status == b.status
            && var (x, y) := (Hex.Decode(a.latestEventHash), Hex.Decode(b.latestEventHash));
            if x.Some? && y.Some? then Hex.LowerText(a.latestEventHash) == Hex.LowerText(b.latestEventHash)
            else if x.Some? then x.value == Codes(b.latestEventHash)
            else if y.Some? then y.value == Codes(a.latestEventHash)
            else a.latestEventHash == b.latestEventHash
  {
    hide Hex.Decode, Hex.LowerText, Codes;
    if Hex.Decode(a.latestEventHash).Some? && Hex.Decode(b.latestEventHash).Some? {
      Hex.DecodeExact(a.latestEventHash, b.latestEventHash);
    }
    if Codes(a.latestEventHash) == Codes(b.latestEventHash) {
      CodesInjective(a.latestEventHash, b.latestEventHash);
    }
  }

  /** For other spellings the leaf hash does not tell values apart: upper-case hex, and text that
      is not hex but has the bytes of some hex. */
  lemma SpellingIsNotCommitted(sequence: nat, status: IdentifierStatus)
    ensures SameLeaf(StateMapValue("AB", sequence, status), StateMapValue("ab", sequence, status))
    ensures SameLeaf(StateMapValue("z", sequence, status), StateMapValue("7a", sequence, status))
  {
    Hex.DecodeTwo('A', 'B');
    Hex.DecodeTwo('a', 'b');
    Hex.DecodeTwo('7', 'a');
    assert EventHashBytes("z").bytes == EventHashBytes("7a").bytes;
  }

  // ---------------------------------------------------------------------------------------
  // The tree object
  // ---------------------------------------------------------------------------------------

  class SparseMerkleTree {
    var entries: seq<Entry>

    ghost predicate Valid()
      reads this
    {
      Ordered(entries)
    }

    function Get(key: Key): Option<StateMapValue>
      reads this
    {
      Lookup(entries, key)
    }

    constructor ()
      ensures Valid() && entries == []
    {
      entries := [];
    }

    method Insert(key: Key, value: StateMapValue)
      requires Valid()
      modifies this
      ensures Valid()
      ensures Get(key) == Some(value)
      ensures forall k: Key | k != key :: Get(k) == old(Get(k))
    {
      InsertedOrdered(entries, key, value);
      forall k: Key
        ensures Lookup(Inserted(entries, key, value), k) == if k == key then Some(value) else Lookup(entries, k)
      {
        InsertedLookup(entries, key, value, k);
      }
      entries := Inserted(entries, key, value);
    }

    /** The proof for a key, which its own root accepts and which states the current value. */
    method Prove(key: Key) returns (m: ProofMessage)
      requires Valid()
      ensures m.keyHash == SpelledKey(key, 0) && m.value == Get(key)
      ensures MessageAccepts(m, Spelled(SubtreeRoot(0, entries), 0))
    {
      var proof := StateMapProof(key, Lookup(entries, key), Reverse(AuditPath(0, key, entries)));
      ProofExact(proof, entries);
      DecodeWritten(proof);
      m := WriteProof(proof);
    }
  }
}
