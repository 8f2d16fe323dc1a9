/** Histories of one identifier in the transparency log: the full replay that auditors run, the
    one-event check that writers run, and what a verified history guarantees.
  */
module NameHistory {
  import opened Prelude
  import opened Crypto
  import Rotation

  datatype NameAction = Register | UpdateProfile | RotateKey | Revoke | RecoverKey

  /** Everything the owner signs. `rest` stands for the fields that the checks do not read. */
  datatype EventBody = EventBody(
    identifierHash: string,
    action: NameAction,
    identityPubkey: string,
    profileHash: string,
    sequence: nat,
    previousEventHash: Option<string>,
    rotation: Option<Rotation.KeyRotation>,
    rest: nat)

  datatype NameEvent = NameEvent(body: EventBody, ownerSignature: Signature<EventBody>)

  /** The hash of a signed event, as hex text. */
  type EventHash = NameEvent -> string

  datatype Error =
    | BrokenIdentifierHistory
    | IdentifierRevoked
    | RecoveryDisabled
    | InvalidRotation
    | UnauthorizedKeyReplacement
    | InvalidEventSignature
    | Unreadable(cause: CryptoError)

  function HashOrEmpty(hash: Option<string>): string {
    if hash.Some? then hash.value else ""
  }

  /** A key change must carry a proof for exactly this event; any other event keeps the key. */
  function CheckKey(authorizedKey: string, e: EventBody): Result<(), Error> {
    if e.action == RotateKey then
      if e.rotation.None? then Err(InvalidRotation)
      else
        var r := e.rotation.value;
        if r.previousPubkey != authorizedKey || r.newPubkey != e.identityPubkey
           || r.identifierHash != e.identifierHash || r.previousEventHash != HashOrEmpty(e.previousEventHash)
           || r.sequence != e.sequence
        then Err(InvalidRotation)
        else match Rotation.Verify(r)
          case Err(c) => Err(Unreadable(c))
          case Ok(false) => Err(InvalidRotation)
          case Ok(true) => Ok(())
    else if e.identityPubkey != authorizedKey then Err(UnauthorizedKeyReplacement)
    else Ok(())
  }

  function CheckSignature(e: NameEvent, key: string): Result<(), Error> {
    match VerifyMessage(e.body, e.ownerSignature, key)
    case Err(c) => Err(Unreadable(c))
    case Ok(false) => Err(InvalidEventSignature)
    case Ok(true) => Ok(())
  }

  /** What the replay carries from one event to the next. */
  datatype Cursor = Cursor(authorizedKey: string, previousHash: Option<string>, revoked: bool)

  function CheckReplayed(c: Cursor, identifier: string, index: nat, e: NameEvent): Result<(), Error> {
    if e.body.identifierHash != identifier || e.body.sequence != index then Err(BrokenIdentifierHistory)
    else if e.body.previousEventHash != c.previousHash then Err(BrokenIdentifierHistory)
    else if c.revoked then Err(IdentifierRevoked)
    else if e.body.action == RecoverKey then Err(RecoveryDisabled)
    else
      var key := CheckKey(c.authorizedKey, e.body);
      if key.Err? then key else CheckSignature(e, c.authorizedKey)
  }

  function Advance(c: Cursor, e: NameEvent, h: EventHash): Cursor {
    Cursor(if e.body.action == RotateKey then e.body.identityPubkey else c.authorizedKey, Some(h(e)),
           e.body.action == Revoke)
  }

  function StartOf(events: seq<NameEvent>): Cursor
    requires events != []
  {
    Cursor(events[0].body.identityPubkey, None, false)
  }

  /** The replay's cursor after the first `n` events, or its error. */
  function Replay(events: seq<NameEvent>, n: nat, h: EventHash): Result<Cursor, Error>
    requires events != [] && n <= |events|
  {
    if n == 0 then Ok(StartOf(events))
    else
      var before := Replay(events, n - 1, h);
      if before.Err? then before
      else
        var check := CheckReplayed(before.value, events[0].body.identifierHash, n - 1, events[n - 1]);
        if check.Err? then Err(check.error) else Ok(Advance(before.value, events[n - 1], h))
  }

  function HistoryVerdict(events: seq<NameEvent>, h: EventHash): Result<(), Error> {
    if events == [] || events[0].body.action != Register || events[0].body.sequence != 0 then
      Err(BrokenIdentifierHistory)
    else
      var replay := Replay(events, |events|, h);
      if replay.Err? then Err(replay.error) else Ok(())
  }

  lemma {:induction false} ReplayStopsAtError(events: seq<NameEvent>, n: nat, m: nat, h: EventHash)
    requires events != [] && n <= m <= |events| && Replay(events, n, h).Err?
    ensures Replay(events, m, h) == Replay(events, n, h)
    decreases m
  {
    hide CheckReplayed, Advance;
    if n < m {
      ReplayStopsAtError(events, n, m - 1, h);
    }
  }

  method VerifyIdentifierHistory(events: seq<NameEvent>, h: EventHash) returns (r: Result<(), Error>)
    ensures r == HistoryVerdict(events, h)
  {
    hide CheckKey, CheckSignature;
    if events == [] || events[0].body.action != Register || events[0].body.sequence != 0 {
      return Err(BrokenIdentifierHistory);
    }
    var identifier := events[0].body.identifierHash;
    var authorizedKey := events[0].body.identityPubkey;
    var previousHash: Option<string> := None;
    var revoked := false;
    for index := 0 to |events|
      invariant Replay(events, index, h) == Ok(Cursor(authorizedKey, previousHash, revoked))
    {
      var event := events[index];
      ghost var check := CheckReplayed(Cursor(authorizedKey, previousHash, revoked), identifier, index, event);
      if check.Err? {
        ReplayStopsAtError(events, index + 1, |events|, h);
      }
      if event.body.identifierHash != identifier || event.body.sequence != index {
        return Err(BrokenIdentifierHistory);
      }
      if event.body.previousEventHash != previousHash {
        return Err(BrokenIdentifierHistory);
      }
      if revoked {
        return Err(IdentifierRevoked);
      }
      if event.body.action == RecoverKey {
        return Err(RecoveryDisabled);
      }
      var key := CheckKey(authorizedKey, event.body);
      if key.Err? {
        return key;
      }
      var signature := CheckSignature(event, authorizedKey);
      if signature.Err? {
        return signature;
      }
      if event.body.action == RotateKey {
        authorizedKey := event.body.identityPubkey;
      }
      revoked := event.body.action == Revoke;
      previousHash := Some(h(event));
    }
    return Ok(());
  }

  /** The check of one proposed event against the current head. */
  function TransitionVerdict(head: Option<NameEvent>, proposed: NameEvent, h: EventHash): Result<(), Error> {
    var p := proposed.body;
    if head.None? then
      if p.action != Register || p.sequence != 0 then Err(BrokenIdentifierHistory)
      else if p.previousEventHash.Some? then Err(BrokenIdentifierHistory)
      else CheckSignature(proposed, p.identityPubkey)
    else
      var last := head.value;
      if p.identifierHash != last.body.identifierHash then Err(BrokenIdentifierHistory)
      else if p.sequence != last.body.sequence + 1 then Err(BrokenIdentifierHistory)
      else if p.previousEventHash != Some(h(last)) then Err(BrokenIdentifierHistory)
      else if last.body.action == Revoke then Err(IdentifierRevoked)
      else
        var key := CheckKey(last.body.identityPubkey, p);
        if key.Err? then key
        else
          var signature := CheckSignature(proposed, last.body.identityPubkey);
          if signature.Err? then signature
          else if p.action == RecoverKey then Err(RecoveryDisabled)
          else Ok(())
  }

  /** The cursor is a function of the last event. */
  lemma {:induction false} CursorIsLast(events: seq<NameEvent>, n: nat, h: EventHash)
    requires 0 < n <= |events| && Replay(events, n, h).Ok?
    ensures var last := events[n - 1];
            && Replay(events, n, h).value == Cursor(last.body.identityPubkey, Some(h(last)), last.body.action == Revoke)
            && last.body.sequence == n - 1 && last.body.identifierHash == events[0].body.identifierHash
  {
    hide CheckSignature;
    if n > 1 {
      CursorIsLast(events, n - 1, h);
    }
  }

  lemma {:induction false} ReplayOfPrefix(events: seq<NameEvent>, more: seq<NameEvent>, n: nat, h: EventHash)
    requires events != [] && n <= |events|
    ensures Replay(events + more, n, h) == Replay(events, n, h)
  {
    if n > 0 {
      ReplayOfPrefix(events, more, n - 1, h);
      assert (events + more)[n - 1] == events[n - 1] && (events + more)[0] == events[0];
    }
  }

  /** Checking one event against the head of a verified history is the same as replaying the
      whole history with the event at its end. */
  lemma TransitionRefinesReplay(events: seq<NameEvent>, proposed: NameEvent, h: EventHash)
    requires events == [] || HistoryVerdict(events, h).Ok?
    ensures HistoryVerdict(events + [proposed], h).Ok?
        <==> TransitionVerdict(if events == [] then None else Some(events[|events| - 1]), proposed, h).Ok?
  {
    if events == [] {
      assert events + [proposed] == [proposed];
      FirstTransition(proposed, h);
    } else {
      LaterTransition(events, proposed, h);
    }
  }

  lemma FirstTransition(proposed: NameEvent, h: EventHash)
    ensures HistoryVerdict([proposed], h).Ok? <==> TransitionVerdict(None, proposed, h).Ok?
  {
    hide CheckSignature, CheckKey;
    var start := StartOf([proposed]);
    assert Replay([proposed], 0, h) == Ok(start);
    assert Replay([proposed], 1, h).Ok? <==> CheckReplayed(start, proposed.body.identifierHash, 0, proposed).Ok?;
    FirstKeepsKey(proposed);
  }

  lemma LaterTransition(events: seq<NameEvent>, proposed: NameEvent, h: EventHash)
    requires events != [] && HistoryVerdict(events, h).Ok?
    ensures HistoryVerdict(events + [proposed], h).Ok?
        <==> TransitionVerdict(Some(events[|events| - 1]), proposed, h).Ok?
  {
    hide CheckSignature, CheckKey;
    var longer := events + [proposed];
    assert longer[|events|] == proposed && longer[0] == events[0];
    CursorIsLast(events, |events|, h);
    ReplayOfPrefix(events, [proposed], |events|, h);
  }

  lemma FirstKeepsKey(e: NameEvent)
    ensures e.body.action == Register ==> CheckKey(e.body.identityPubkey, e.body).Ok?
  {
  }

  ghost predicate Injective(h: EventHash) {
    forall a, b :: h(a) == h(b) ==> a == b
  }

  /** The two keys signed this key change, for this identifier, predecessor and sequence. */
  ghost predicate DualSigned(before: NameEvent, e: NameEvent) {
    && e.body.action == RotateKey && e.body.rotation.Some?
    && var r := e.body.rotation.value;
    && Rotation.Verify(r) == Ok(true)
    && r.previousPubkey == before.body.identityPubkey && r.newPubkey == e.body.identityPubkey
    && r.identifierHash == e.body.identifierHash && r.sequence == e.body.sequence
    && r.previousEventHash == HashOrEmpty(e.body.previousEventHash)
  }

  /** What follows what in a verified history. */
  ghost predicate Follows(before: NameEvent, e: NameEvent, h: EventHash) {
    && e.body.identifierHash == before.body.identifierHash
    && e.body.sequence == before.body.sequence + 1
    && e.body.previousEventHash == Some(h(before))
    && before.body.action != Revoke && e.body.action != RecoverKey
    && CheckSignature(e, before.body.identityPubkey).Ok?
    && (e.body.identityPubkey != before.body.identityPubkey ==> DualSigned(before, e))
  }

  /** In a verified history every event is signed by the key in force before it, names its
      predecessor, and changes the key only with both keys' consent; nothing follows a
      revocation. */
  lemma HistoryGuarantees(events: seq<NameEvent>, h: EventHash, i: nat)
    requires HistoryVerdict(events, h).Ok? && i < |events|
    ensures events[i].body.sequence == i && events[i].body.identifierHash == events[0].body.identifierHash
    ensures i == 0 ==>
              events[0].body.previousEventHash.None? && CheckSignature(events[0], events[0].body.identityPubkey).Ok?
    ensures i > 0 ==> Follows(events[i - 1], events[i], h)
  {
    if Replay(events, i + 1, h).Err? {
      ReplayStopsAtError(events, i + 1, |events|, h);
    }
    hide CheckSignature, Rotation.Verify;
    CursorIsLast(events, i + 1, h);
    if i > 0 {
      CursorIsLast(events, i, h);
    }
  }

  // ---------------------------------------------------------------------------------------
  // Which histories are verified
  // ---------------------------------------------------------------------------------------

  /** The registration: the first event, signed by its own key. */
  ghost predicate Opens(e: NameEvent) {
    && e.body.action == Register && e.body.sequence == 0 && e.body.previousEventHash.None?
    && SignedFor(e.body.identityPubkey, e.ownerSignature, e.body)
  }

  /** A proven change from the key of `before` to the key of `e`, for this identifier, predecessor
      and sequence. */
  ghost predicate ChangesKey(before: NameEvent, e: NameEvent, h: EventHash) {
    && e.body.rotation.Some?
    && var r := e.body.rotation.value;
    && Rotation.Proven(r)
    && r.previousPubkey == before.body.identityPubkey && r.newPubkey == e.body.identityPubkey
    && r.identifierHash == before.body.identifierHash && r.sequence == before.body.sequence + 1
    && r.previousEventHash == h(before)
  }

  /** The next event of the same identifier, signed by the key in force: a proven key change, or an
      update, another registration or a revocation under the same key. */
  ghost predicate Continues(before: NameEvent, e: NameEvent, h: EventHash) {
    && e.body.identifierHash == before.body.identifierHash && e.body.sequence == before.body.sequence + 1
    && e.body.previousEventHash == Some(h(before)) && before.body.action != Revoke
    && SignedFor(before.body.identityPubkey, e.ownerSignature, e.body)
    && match e.body.action
       case RotateKey => ChangesKey(before, e, h)
       case RecoverKey => false
       case Register => e.body.identityPubkey == before.body.identityPubkey
       case UpdateProfile => e.body.identityPubkey == before.body.identityPubkey
       case Revoke => e.body.identityPubkey == before.body.identityPubkey
  }

  lemma SignatureExact(e: NameEvent, key: string)
    ensures CheckSignature(e, key).Ok? <==> SignedFor(key, e.ownerSignature, e.body)
  {
    hide VerifyMessage, SignedFor;
    VerifyMessageExact(e.body, e.ownerSignature, key);
  }

  lemma ReplayedExact(before: NameEvent, identifier: string, index: nat, e: NameEvent, h: EventHash)
    requires before.body.identifierHash == identifier && before.body.sequence + 1 == index
    ensures CheckReplayed(Cursor(before.body.identityPubkey, Some(h(before)), before.body.action == Revoke), identifier,
                          index, e).Ok?
        <==> Continues(before, e, h)
  {
    hide CheckSignature, SignedFor, Rotation.Verify, Rotation.Proven;
    SignatureExact(e, before.body.identityPubkey);
    if e.body.rotation.Some? {
      Rotation.ProvenExact(e.body.rotation.value);
    }
  }

  lemma OpensExact(e: NameEvent)
    requires e.body.action == Register && e.body.sequence == 0
    ensures CheckReplayed(Cursor(e.body.identityPubkey, None, false), e.body.identifierHash, 0, e).Ok? <==> Opens(e)
  {
    hide CheckSignature, SignedFor;
    SignatureExact(e, e.body.identityPubkey);
  }

  lemma {:induction false} ReplayExact(events: seq<NameEvent>, n: nat, h: EventHash)
    requires 0 < n <= |events| && events[0].body.action == Register && events[0].body.sequence == 0
    ensures Replay(events, n, h).Ok? <==>
            Opens(events[0]) && forall i | 0 < i < n :: Continues(events[i - 1], events[i], h)
  {
    hide CheckReplayed, Opens, Continues;
    if n == 1 {
      assert Replay(events, 0, h) == Ok(StartOf(events));
      OpensExact(events[0]);
    } else {
      ReplayExact(events, n - 1, h);
      if Replay(events, n - 1, h).Ok? {
        CursorIsLast(events, n - 1, h);
        ReplayedExact(events[n - 2], events[0].body.identifierHash, n - 1, events[n - 1], h);
      }
    }
  }

  /** A history is verified exactly when it opens with a registration signed by its own key and
      every later event continues its predecessor. */
  lemma HistoryExact(events: seq<NameEvent>, h: EventHash)
    ensures HistoryVerdict(events, h).Ok? <==>
            events != [] && Opens(events[0]) && forall i | 0 < i < |events| :: Continues(events[i - 1], events[i], h)
  {
    hide Replay, Continues, SignedFor;
    if events != [] && events[0].body.action == Register && events[0].body.sequence == 0 {
      ReplayExact(events, |events|, h);
    }
  }

  /** And one proposed event is accepted after it exactly when it continues its last event. */
  lemma TransitionExact(head: Option<NameEvent>, proposed: NameEvent, h: EventHash)
    ensures TransitionVerdict(head, proposed, h).Ok?
        <==> if head.None? then Opens(proposed) else Continues(head.value, proposed, h)
  {
    hide CheckSignature, SignedFor, Rotation.Verify, Rotation.Proven;
    SignatureExact(proposed, proposed.body.identityPubkey);
    if head.Some? {
      SignatureExact(proposed, head.value.body.identityPubkey);
    }
    if proposed.body.rotation.Some? {
      Rotation.ProvenExact(proposed.body.rotation.value);
    }
  }

  /** Every beginning of a verified history is itself verified. */
  lemma PrefixVerified(events: seq<NameEvent>, n: nat, h: EventHash)
    requires HistoryVerdict(events, h).Ok? && 0 < n <= |events|
    ensures HistoryVerdict(events[..n], h).Ok?
  {
    if Replay(events, n, h).Err? {
      ReplayStopsAtError(events, n, |events|, h);
    }
    ReplayOfPrefix(events[..n], events[n..], n, h);
    assert events[..n] + events[n..] == events;
    hide Replay;
  }

  lemma NotEmpty(events: seq<NameEvent>, h: EventHash)
    requires HistoryVerdict(events, h).Ok?
    ensures events != []
  {
    hide Replay;
  }

  lemma SameEvent(h: EventHash, a: NameEvent, b: NameEvent)
    requires Injective(h) && h(a) == h(b)
    ensures a == b
  {
  }

  lemma NamesPredecessor(before: NameEvent, e: NameEvent, h: EventHash)
    requires Follows(before, e, h)
    ensures e.body.previousEventHash == Some(h(before))
  {
    hide CheckSignature, DualSigned;
  }

  /** The hash of the newest event commits to the whole history. */
  lemma {:induction false} HeadDeterminesHistory(a: seq<NameEvent>, b: seq<NameEvent>, h: EventHash)
    requires Injective(h) && HistoryVerdict(a, h).Ok? && HistoryVerdict(b, h).Ok?
    requires h(a[|a| - 1]) == h(b[|b| - 1])
    ensures a == b
    decreases |a|
  {
    hide *;
    NotEmpty(a, h);
    NotEmpty(b, h);
    HistoryGuarantees(a, h, |a| - 1);
    HistoryGuarantees(b, h, |b| - 1);
    SameEvent(h, a[|a| - 1], b[|b| - 1]);
    if |a| > 1 {
      var m, n := a[..|a| - 1], b[..|b| - 1];
      PrefixVerified(a, |m|, h);
      PrefixVerified(b, |n|, h);
      NamesPredecessor(a[|a| - 2], a[|a| - 1], h);
      NamesPredecessor(b[|b| - 2], b[|b| - 1], h);
      HeadDeterminesHistory(m, n, h);
      assert a == m + [a[|a| - 1]] && b == n + [b[|b| - 1]];
    } else {
      assert a == [a[0]] && b == [b[0]];
    }
  }
}
